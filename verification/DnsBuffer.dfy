/**
 * Packing into a buffer (miekg/dns: PackBuffer, PackRR and Len in msg.go, the
 * len methods in types.go and dns.go).
 *
 * The buffer is made as long as the message is without compression. That it is
 * long enough, whatever the names hold, is proved here; then come the packer's
 * loops, which write into it in place.
 */
module DnsBuffer {
  import opened Common
  import opened DnsName
  import opened DnsPack
  import opened DnsText
  import opened DnsCompression
  import opened DnsMeaning
  import opened DnsRecord
  import opened DnsMessage

  // ------------------------------------------------------------- the length

  // It ends in a dot, and the labels that dots close have 1 to 63 bytes.
  predicate NameOk(text: seq<byte>) {
    WellFormed(text) && Acceptable(Named(text), false)
  }

  predicate Fitting(part: Part) {
    part.Domain? ==> NameOk(part.text)
  }

  predicate FittingRR(rr: RR) {
    NameOk(rr.name) && (forall p <- rr.rdata :: Fitting(p)) && PartsLength(rr.rdata) <= 65535
  }

  predicate FittingMessage(m: Message) {
    (forall q <- m.questions :: NameOk(q.name)) && forall rr <- Records(m) :: FittingRR(rr)
  }

  function RRLength(rr: RR): nat {
    |rr.name| + 1 + 10 + PartsLength(rr.rdata)
  }

  function QuestionsLength(qs: seq<Question>): nat {
    if qs == [] then 0 else |qs[0].name| + 1 + 4 + QuestionsLength(qs[1..])
  }

  function RRsLength(rrs: seq<RR>): nat {
    if rrs == [] then 0 else RRLength(rrs[0]) + RRsLength(rrs[1..])
  }

  function MessageLength(m: Message): nat {
    12 + QuestionsLength(m.questions) + RRsLength(m.answer) + RRsLength(m.authority) + RRsLength(m.additional)
  }

  /**
   * A name is packed into its text's length and one byte: with escapes, which
   * only shorten it, and with compression, whatever the table holds.
   */
  lemma {:induction false} NameFits(bs: seq<byte>, ls: nat, i: nat, begin: nat, escapedDot: bool,
                                    msg: seq<byte>, off: nat, table: Table, n: nat, compress: bool)
    requires begin <= i <= ls <= |bs| && |bs| > 1 && (i < ls ==> bs[ls - 1] == DOT) && InRange(table)
    requires Coherent(bs, i, begin, escapedDot) && Acceptable(Cut(Tokens(bs[i..ls]), bs[begin..i]), false)
    requires off + ls - begin + 1 <= |msg|
    ensures var r := PackLoop(bs, ls, i, begin, escapedDot, msg, off, table, n, compress);
            r.Packed? && r.end <= off + ls - begin + 1
    decreases ls - i
  {
    hide Unescaped, Put, Tokens, Cut, InRange, AtDot, Acceptable;
    if i == ls {
    } else if bs[i] == BACKSLASH {
      CutAtEscape(bs, ls, i, begin);
      var (next, m) := Unescaped(bs, i, ls);
      NameFits(next, m, i + 1, begin, next[i] == DOT, msg, off, table, n, compress);
    } else if bs[i] != DOT {
      CutAtByte(bs, ls, i, begin);
      NameFits(bs, ls, i + 1, begin, false, msg, off, table, n, compress);
    } else {
      CutAtDot(bs, ls, i, begin);
      FirstAcceptable(bs[begin..i], Cut(Tokens(bs[i + 1..ls]), bs[i + 1..i + 1]));
      DotFits(bs, ls, i, begin, escapedDot, msg, off, table, n, compress);
      match AtDot(bs, i, begin, escapedDot, msg, off, table, n, compress)
      case Ends(_) =>
      case Goes(msg', off', table') => NameFits(bs, ls, i + 1, i + 1, false, msg', off', table', n + 1, compress);
    }
  }

  lemma FirstAcceptable(l: Label, rest: seq<Label>)
    requires Acceptable([l] + rest, false)
    ensures 1 <= |l| <= MAX_LABEL && Acceptable(rest, false)
  {
    assert ([l] + rest)[1..] == rest;
  }

  // A label of 1 to 63 bytes with its dot leaves room for the rest.
  lemma DotFits(bs: seq<byte>, ls: nat, i: nat, begin: nat, escapedDot: bool, msg: seq<byte>, off: nat, table: Table,
                n: nat, compress: bool)
    requires begin < i < ls <= |bs| && i - begin <= MAX_LABEL && Coherent(bs, i, begin, escapedDot)
    requires InRange(table) && off + ls - begin + 1 <= |msg|
    ensures match AtDot(bs, i, begin, escapedDot, msg, off, table, n, compress)
            case Ends(r) => r.Packed? && r.end == off + 2
            case Goes(msg', off', _) => off' == off + 1 + i - begin && |msg'| == |msg|
  {
    hide Put, InRange;
  }

  lemma PartFits(st: State, part: Part, compress: bool)
    requires Sound(st) && Fitting(part) && st.off + PartLength(part) <= |st.msg|
    ensures var r := PackItem(st, ItemOf(part, compress));
            r.Some? && r.value.off <= st.off + PartLength(part)
  {
    hide PackLoop, InRange, Acceptable, Put, Tokens, Cut;
    if part.Domain? {
      var text := part.text;
      if text == [DOT] {
        RootPacks(st.msg, st.off, st.table, part.compressible && compress);
      } else {
        assert text[0..|text|] == text && text[0..0] == [];
        NameFits(text, |text|, 0, 0, false, st.msg, st.off, st.table, 0, part.compressible && compress);
      }
    }
  }

  lemma {:induction false} PartsFit(st: State, parts: seq<Part>, compress: bool)
    requires Sound(st) && (forall p <- parts :: Fitting(p)) && st.off + PartsLength(parts) <= |st.msg|
    ensures var r := PackParts(st, parts, compress);
            r.Some? && r.value.off <= st.off + PartsLength(parts)
    decreases parts
  {
    hide PackItem, InRange, Fitting, PartLength;
    if parts != [] {
      PartFits(st, parts[0], compress);
      PartsFit(PackItem(st, ItemOf(parts[0], compress)).value, parts[1..], compress);
    }
  }

  lemma {:induction false} PartsLengthAdds(a: seq<Part>, b: seq<Part>)
    ensures PartsLength(a + b) == PartsLength(a) + PartsLength(b)
    decreases a
  {
    if a == [] {
      assert a + b == b;
    } else {
      assert (a + b)[1..] == a[1..] + b;
      PartsLengthAdds(a[1..], b);
    }
  }

  lemma RecordLength(rr: RR)
    ensures PartsLength(Parts(rr)) == RRLength(rr)
  {
    hide U16;
    HeadLength(rr);
    var last := [Octets(U16(rr.rdlength))];
    assert last[1..] == [] && PartsLength(last) == 2;
    PartsLengthAdds(Head(rr), last);
    PartsLengthAdds(Head(rr) + last, rr.rdata);
  }

  // A record fits into the length its len method counts.
  lemma RecordFits(st: State, rr: RR, compress: bool)
    requires Sound(st) && FittingRR(rr) && st.off + RRLength(rr) <= |st.msg|
    ensures PackRR(st, rr, compress).Some? && PackRR(st, rr, compress).value.off <= st.off + RRLength(rr)
  {
    hide PackParts, NameOk, U16, InRange, SetRdlength, PartsLength;
    RecordLength(rr);
    FittingParts(rr);
    PartsFit(st, Parts(rr), compress);
    var rest := [Octets(U16(rr.rdlength))] + rr.rdata;
    PartsOfRR(rr);
    PartsSplit(st, Head(rr), rest, compress);
    RdataFits(st, rr, compress);
    FittingIsWellFormed(rr.name);
    RdlengthIsTrue(st, rr, compress);
  }

  lemma FittingIsWellFormed(text: seq<byte>)
    requires NameOk(text)
    ensures WellFormed(text)
  {
  }

  lemma FittingParts(rr: RR)
    requires FittingRR(rr)
    ensures forall p <- Parts(rr) :: Fitting(p)
  {
    hide NameOk;
  }

  // What stands behind the header takes no more than its uncompressed length.
  lemma RdataFits(st: State, rr: RR, compress: bool)
    requires Sound(st) && FittingRR(rr) && st.off + RRLength(rr) <= |st.msg|
    ensures PackParts(st, Head(rr), compress).Some? && PackParts(st, Parts(rr), compress).Some?
    ensures PackParts(st, Parts(rr), compress).value.off <= HeaderEnd(st, rr, compress) + PartsLength(rr.rdata)
  {
    hide NameOk, U16, InRange, PartsLength, PackItem;
    var last := [Octets(U16(rr.rdlength))];
    assert Parts(rr) == Head(rr) + last + rr.rdata;
    HeadLength(rr);
    FittingParts(rr);
    PartsFit(st, Head(rr), compress);
    hide PackParts;
    PartsSplit(st, Head(rr), last, compress);
    PartsSplit(st, Head(rr) + last, rr.rdata, compress);
    var mid := PackParts(st, Head(rr), compress).value;
    LengthFits(mid, rr.rdlength, compress);
    PartsFit(PackParts(mid, last, compress).value, rr.rdata, compress);
  }

  lemma LengthFits(mid: State, x: nat, compress: bool)
    requires Sound(mid) && mid.off + 2 <= |mid.msg|
    ensures var r := PackParts(mid, [Octets(U16(x))], compress); r.Some? && r.value.off == mid.off + 2
  {
    hide U16, InRange;
    assert [Octets(U16(x))][1..] == [];
  }

  lemma {:induction false} QuestionsFit(st: State, qs: seq<Question>, compress: bool)
    requires Sound(st) && (forall q <- qs :: NameOk(q.name)) && st.off + QuestionsLength(qs) <= |st.msg|
    ensures var r := PackQuestions(st, qs, compress); r.Some? && r.value.off <= st.off + QuestionsLength(qs)
    decreases qs
  {
    hide PackParts, InRange, NameOk;
    if qs != [] {
      QuestionLength(qs[0]);
      PartsFit(st, QuestionParts(qs[0]), compress);
      QuestionsFit(PackParts(st, QuestionParts(qs[0]), compress).value, qs[1..], compress);
    }
  }

  lemma QuestionLength(q: Question)
    requires NameOk(q.name)
    ensures PartsLength(QuestionParts(q)) == |q.name| + 1 + 4 && forall p <- QuestionParts(q) :: Fitting(p)
  {
    hide NameOk, U16;
    var parts := QuestionParts(q);
    assert parts[2..][1..] == [] && PartsLength(parts[2..]) == 2;
    assert parts[1..][1..] == parts[2..] && PartsLength(parts[1..]) == 4;
  }

  lemma {:induction false} RRsFit(st: State, rrs: seq<RR>, compress: bool)
    requires Sound(st) && (forall rr <- rrs :: FittingRR(rr)) && st.off + RRsLength(rrs) <= |st.msg|
    ensures var r := PackRRs(st, rrs, compress); r.Some? && r.value.off <= st.off + RRsLength(rrs)
    decreases rrs
  {
    hide PackRR, InRange, FittingRR, RRLength;
    if rrs != [] {
      RecordFits(st, rrs[0], compress);
      RRsFit(PackRR(st, rrs[0], compress).value, rrs[1..], compress);
    }
  }

  lemma TopLength(m: Message)
    ensures PartsLength(Top(m)) == 12 && forall p <- Top(m) :: Fitting(p)
  {
    hide U16;
    var t := Top(m);
    assert t[5..][1..] == [] && PartsLength(t[5..]) == 2;
    assert t[4..][1..] == t[5..] && PartsLength(t[4..]) == 4;
    assert t[3..][1..] == t[4..] && PartsLength(t[3..]) == 6;
    assert t[2..][1..] == t[3..] && PartsLength(t[2..]) == 8;
    assert t[1..][1..] == t[2..] && PartsLength(t[1..]) == 10;
  }

  /**
   * The buffer is large enough: packing a message into as many bytes as its
   * uncompressed length counts never fails and never writes outside, with or
   * without compression and escapes.
   */
  lemma MessageFits(m: Message, msg: seq<byte>, compress: bool)
    requires FittingMessage(m) && MessageLength(m) <= |msg|
    ensures PackMessage(m, msg, compress).Some?
    ensures PackMessage(m, msg, compress).value.off <= MessageLength(m)
  {
    hide PackParts, PackQuestions, PackRRs, InRange, FittingRR, NameOk, PartsLength, Fitting;
    TopLength(m);
    var init := State(msg, 0, map[]);
    assert Sound(init) by { assert InRange(map[]) by { NothingInRange(); } }
    PartsFit(init, Top(m), compress);
    QuestionsFit(PackParts(init, Top(m), compress).value, m.questions, compress);
    var st := PackFront(m, msg, compress).value;
    assert forall rr <- m.answer + m.authority + m.additional :: FittingRR(rr);
    assert forall rr <- m.answer :: rr in Records(m);
    assert forall rr <- m.authority :: rr in Records(m);
    assert forall rr <- m.additional :: rr in Records(m);
    RRsFit(st, m.answer, compress);
    RRsFit(PackRRs(st, m.answer, compress).value, m.authority, compress);
    RRsFit(PackRRs(PackRRs(st, m.answer, compress).value, m.authority, compress).value, m.additional, compress);
  }

  lemma NothingInRange()
    ensures InRange(map[])
  {
  }

  // ------------------------------------------------------ the packer's methods

  // Patches the length of the record from start to end in place.
  method SetRdlengthInPlace(msg: array<byte>, start: nat, end: nat) returns (ok: bool)
    modifies msg
    ensures ok <==> SetRdlength(old(msg[..]), start, end).Some?
    ensures msg[..] == if ok then SetRdlength(old(msg[..]), start, end).value else old(msg[..])
  {
    hide Put;
    var off: nat := start;
    while true
      invariant msg[..] == old(msg[..])
      invariant WalkName(msg[..], start) == WalkName(msg[..], off)
      decreases msg.Length - off
    {
      if off + 1 > msg.Length { return false; }
      var c := msg[off];
      off := off + 1;
      if c == 0 {
        break;
      } else if c < 64 {
        if off + c > msg.Length { return false; }
        off := off + c;
      } else if c >= 192 {
        off := off + 1;
        break;
      }
    }
    off := off + 8;
    if off + 2 > msg.Length { return false; }
    var length := end - (off + 2);
    if length > 65535 { return false; }
    WriteU16(msg, off, length % 65536);
    return true;
  }

  method WriteU16(msg: array<byte>, off: nat, x: nat)
    requires off + 2 <= msg.Length
    modifies msg
    ensures msg[..] == Put(old(msg[..]), off, U16(x))
  {
    msg[off], msg[off + 1] := x / 256 % 256, x % 256;
  }

  method WriteOctets(msg: array<byte>, off: nat, bytes: seq<byte>)
    requires off + |bytes| <= msg.Length
    modifies msg
    ensures msg[..] == Put(old(msg[..]), off, bytes)
  {
    for j := 0 to |bytes|
      invariant forall k :: off <= k < off + j ==> msg[k] == bytes[k - off]
      invariant forall k :: 0 <= k < off || off + j <= k < msg.Length ==> msg[k] == old(msg[k])
    {
      msg[off + j] := bytes[j];
    }
  }

  // What is left behind when the parts do not fit: the message and the table at
  // the part that failed, and what that part still wrote.
  function Leftover(st: State, parts: seq<Part>, compress: bool): (seq<byte>, Table)
    requires Sound(st) && PackParts(st, parts, compress) == None
    decreases parts
  {
    var item := ItemOf(parts[0], compress);
    match PackItem(st, item)
    case Some(next) => Leftover(next, parts[1..], compress)
    case None => Wreck(st, item)
  }

  function Wreck(st: State, item: Item): (seq<byte>, Table)
    requires Sound(st)
  {
    match item
    case Raw(_) => (st.msg, st.table)
    case Name(text, c) =>
      var r := Pack(text, st.msg, st.off, st.table, c);
      (r.msg, r.table)
  }

  // Beyond the end of the buffer only empty names can be packed.
  predicate OnlyEmptyNames(parts: seq<Part>) {
    forall p <- parts :: p.Domain? && p.text == []
  }

  // One field. Inside the buffer this is `PackItem`.
  method PackPart(part: Part, msg: array<byte>, start: nat, table: Compression, compress: bool)
    returns (end: nat, ok: bool)
    requires InRange(table.at)
    modifies msg, table
    ensures InRange(table.at)
    ensures start <= msg.Length ==>
              var st, item := State(old(msg[..]), start, old(table.at)), ItemOf(part, compress);
              && ok == PackItem(st, item).Some? && (ok ==> State(msg[..], end, table.at) == PackItem(st, item).value)
              && (!ok ==> (msg[..], table.at) == Wreck(st, item))
    ensures start > msg.Length ==>
              && ok == (part.Domain? && part.text == []) && (ok ==> end == start)
              && msg[..] == old(msg[..]) && table.at == old(table.at)
  {
    hide PackLoop, Put, InRange;
    match part {
      case Octets(bytes) =>
        if start + |bytes| > msg.Length { return start, false; }
        WriteOctets(msg, start, bytes);
        return start + |bytes|, true;
      case Domain(text, compressible) =>
        var next, labels, fault := PackDomainName(text, msg, start, table, compressible && compress);
        return next, fault == None;
    }
  }

  /**
   * Packs the fields of a record one behind the other, at any offset. If one of
   * them does not fit, the message and the table are left as they were there.
   */
  method PackPartsInPlace(parts: seq<Part>, msg: array<byte>, start: nat, table: Compression, compress: bool)
    returns (end: nat, ok: bool)
    requires InRange(table.at)
    modifies msg, table
    ensures InRange(table.at)
    ensures start <= msg.Length ==>
              var st := State(old(msg[..]), start, old(table.at));
              var r := PackParts(st, parts, compress);
              && ok == r.Some? && (ok ==> State(msg[..], end, table.at) == r.value)
              && (!ok ==> (msg[..], table.at) == Leftover(st, parts, compress))
    ensures start > msg.Length ==>
              && ok == OnlyEmptyNames(parts) && (ok ==> end == start)
              && msg[..] == old(msg[..]) && table.at == old(table.at)
  {
    hide PackItem, Wreck, InRange;
    end := start;
    ghost var inside, init := start <= msg.Length, State(msg[..], start, table.at);
    for j := 0 to |parts|
      invariant InRange(table.at) && (inside ==> end <= msg.Length)
      invariant inside ==>
                  var now := State(msg[..], end, table.at);
                  && PackParts(init, parts, compress) == PackParts(now, parts[j..], compress)
                  && (PackParts(init, parts, compress) == None ==>
                        Leftover(init, parts, compress) == Leftover(now, parts[j..], compress))
      invariant !inside ==>
                  OnlyEmptyNames(parts[..j]) && end == start && msg[..] == old(msg[..]) && table.at == old(table.at)
    {
      assert parts[j..][0] == parts[j] && parts[j..][1..] == parts[j + 1..];
      assert parts[..j + 1] == parts[..j] + [parts[j]];
      end, ok := PackPart(parts[j], msg, end, table, compress);
      if !ok { return; }
    }
    assert parts[..|parts|] == parts;
    ok := true;
  }

  // What is left behind when a record cannot be packed.
  function RRLeftover(st: State, rr: RR, compress: bool): (seq<byte>, Table)
    requires Sound(st) && PackRR(st, rr, compress) == None
  {
    match PackParts(st, Parts(rr), compress)
    case None => Leftover(st, Parts(rr), compress)
    case Some(end) => (end.msg, end.table)
  }

  /**
   * Packs a record: its fields, then its length into the header. Beyond the end
   * of the buffer there is no record.
   */
  method PackRRInPlace(rr: RR, msg: array<byte>, start: nat, table: Compression, compress: bool)
    returns (end: nat, ok: bool)
    requires InRange(table.at)
    modifies msg, table
    ensures InRange(table.at)
    ensures start <= msg.Length ==>
              var st := State(old(msg[..]), start, old(table.at));
              var r := PackRR(st, rr, compress);
              && ok == r.Some? && (ok ==> State(msg[..], end, table.at) == r.value)
              && (!ok ==> (msg[..], table.at) == RRLeftover(st, rr, compress))
    ensures start > msg.Length ==> !ok && msg[..] == old(msg[..]) && table.at == old(table.at)
  {
    hide PackParts, SetRdlength, InRange, Leftover;
    assert Parts(rr)[1] in Parts(rr) && Parts(rr)[1].Octets?;
    end, ok := PackPartsInPlace(Parts(rr), msg, start, table, compress);
    if ok {
      ok := SetRdlengthInPlace(msg, start, end);
    }
  }

  // The number of bytes that packing may need.
  method Len(m: Message) returns (n: nat)
    ensures n == MessageLength(m)
  {
    hide RRLength;
    n := 12;
    assert m.questions[0..] == m.questions && m.answer[0..] == m.answer;
    assert m.authority[0..] == m.authority && m.additional[0..] == m.additional;
    for i := 0 to |m.questions|
      invariant n + QuestionsLength(m.questions[i..]) == 12 + QuestionsLength(m.questions)
    {
      assert m.questions[i..][1..] == m.questions[i + 1..];
      n := n + |m.questions[i].name| + 1 + 4;
    }
    n := AddLengths(m.answer, n);
    n := AddLengths(m.authority, n);
    n := AddLengths(m.additional, n);
  }

  method AddLengths(rrs: seq<RR>, before: nat) returns (n: nat)
    ensures n == before + RRsLength(rrs)
  {
    hide RRLength;
    n := before;
    assert rrs[0..] == rrs;
    for i := 0 to |rrs|
      invariant n + RRsLength(rrs[i..]) == before + RRsLength(rrs)
    {
      assert rrs[i..][1..] == rrs[i + 1..];
      n := n + RRLength(rrs[i]);
    }
  }

  // Packs the records of one section.
  method PackSection(rrs: seq<RR>, msg: array<byte>, start: nat, table: Compression, compress: bool)
    returns (end: nat, ok: bool)
    requires InRange(table.at) && start <= msg.Length
    modifies msg, table
    ensures InRange(table.at)
    ensures var r := PackRRs(State(old(msg[..]), start, old(table.at)), rrs, compress);
            ok == r.Some? && (ok ==> State(msg[..], end, table.at) == r.value)
  {
    hide PackRR, InRange, RRLeftover;
    end := start;
    ghost var init := State(msg[..], start, table.at);
    assert rrs[0..] == rrs;
    for j := 0 to |rrs|
      invariant InRange(table.at) && end <= msg.Length
      invariant PackRRs(init, rrs, compress) == PackRRs(State(msg[..], end, table.at), rrs[j..], compress)
    {
      assert rrs[j..][0] == rrs[j] && rrs[j..][1..] == rrs[j + 1..];
      end, ok := PackRRInPlace(rrs[j], msg, end, table, compress);
      if !ok { return; }
    }
    ok := true;
  }

  method PackQuestionsInPlace(qs: seq<Question>, msg: array<byte>, start: nat, table: Compression, compress: bool)
    returns (end: nat, ok: bool)
    requires InRange(table.at) && start <= msg.Length
    modifies msg, table
    ensures InRange(table.at)
    ensures var r := PackQuestions(State(old(msg[..]), start, old(table.at)), qs, compress);
            ok == r.Some? && (ok ==> State(msg[..], end, table.at) == r.value)
  {
    hide PackParts, InRange, Leftover;
    end := start;
    ghost var init := State(msg[..], start, table.at);
    assert qs[0..] == qs;
    for j := 0 to |qs|
      invariant InRange(table.at) && end <= msg.Length
      invariant PackQuestions(init, qs, compress) == PackQuestions(State(msg[..], end, table.at), qs[j..], compress)
    {
      assert qs[j..][0] == qs[j] && qs[j..][1..] == qs[j + 1..];
      end, ok := PackPartsInPlace(QuestionParts(qs[j]), msg, end, table, compress);
      if !ok { return; }
    }
    ok := true;
  }

  // Packs the header and the pieces.
  method PackInto(m: Message, msg: array<byte>, compress: bool) returns (end: nat, ok: bool)
    modifies msg
    ensures var r := PackMessage(m, old(msg[..]), compress);
            ok == r.Some? && (ok ==> msg[..] == r.value.msg && end == r.value.off)
  {
    hide PackParts, PackQuestions, PackRRs, InRange, Leftover, Top;
    var table := new Compression();
    NothingInRange();
    end, ok := PackPartsInPlace(Top(m), msg, 0, table, compress);
    if !ok { return; }
    end, ok := PackQuestionsInPlace(m.questions, msg, end, table, compress);
    if !ok { return; }
    end, ok := PackSection(m.answer, msg, end, table, compress);
    if !ok { return; }
    end, ok := PackSection(m.authority, msg, end, table, compress);
    if !ok { return; }
    end, ok := PackSection(m.additional, msg, end, table, compress);
  }

  /**
   * Packs a message into the given buffer, or into a new one if that is shorter
   * than the message without compression and one byte. A message with acceptable
   * names and data always fits.
   */
  method PackBuffer(m: Message, buf: array<byte>, compress: bool) returns (msg: array<byte>, end: nat, ok: bool)
    modifies buf
    ensures buf.Length <= MessageLength(m) ==> fresh(msg) && msg.Length == MessageLength(m) + 1
    ensures buf.Length > MessageLength(m) ==> msg == buf
    ensures var r := PackMessage(m, if msg == buf then old(buf[..]) else seq(msg.Length, _ => 0), compress);
            ok == r.Some? && (ok ==> msg[..] == r.value.msg && end == r.value.off)
    ensures FittingMessage(m) ==> ok && end < msg.Length
  {
    hide PackMessage, MessageLength, FittingMessage;
    msg := buf;
    var length := Len(m);
    if msg.Length < length + 1 { msg := new byte[length + 1](_ => 0); }
    assert msg != buf ==> msg[..] == seq(msg.Length, _ => 0);
    if FittingMessage(m) { MessageFits(m, msg[..], compress); }
    end, ok := PackInto(m, msg, compress);
  }
}
