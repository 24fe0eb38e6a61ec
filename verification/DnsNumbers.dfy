/**
 * The numbers of a packed message, by the values of their places: the byte k of
 * a field of w bytes counts 256 to the power of w - 1 - k, the first byte most
 * (section 2.3.2 of RFC 1035).
 */
module DnsNumbers {
  import opened Common
  import opened DnsName
  import opened DnsPack
  import opened DnsText
  import opened DnsCompression
  import opened DnsMeaning
  import opened DnsRecord
  import opened DnsMessage

  function Place(k: nat): (p: nat)
    ensures p > 0
  {
    if k == 0 then 1 else 256 * Place(k - 1)
  }

  predicate Places(x: nat, s: seq<byte>) {
    forall k :: 0 <= k < |s| ==> s[k] == x / Place(|s| - 1 - k) % 256
  }

  // The number that the bytes of a field stand for.
  function NumberIn(s: seq<byte>): nat {
    if s == [] then 0 else s[0] * Place(|s| - 1) + NumberIn(s[1..])
  }

  function Number(part: Part): nat {
    if part.Octets? then NumberIn(part.bytes) else 0
  }

  lemma FirstPlaces()
    ensures Place(0) == 1 && Place(1) == 256 && Place(2) == 0x1_0000 && Place(3) == 0x100_0000
    ensures Place(4) == 0x1_0000_0000
  {
    assert Place(3) == 256 * Place(2);
  }

  lemma TwoBytes(a: byte, b: byte)
    ensures NumberIn([a, b]) == 256 * a as nat + b as nat
  {
    FirstPlaces();
    assert [a, b][1..] == [b] && [b][1..] == [];
    assert NumberIn([b]) == b as nat;
  }

  lemma FourBytes(a: byte, b: byte, c: byte, d: byte)
    ensures NumberIn([a, b, c, d]) == 0x100_0000 * a as nat + 0x1_0000 * b as nat + NumberIn([c, d])
  {
    FirstPlaces();
    assert [a, b, c, d][1..] == [b, c, d] && [b, c, d][1..] == [c, d];
  }

  lemma TwoPlaces(x: nat)
    ensures Places(x, [x / 256 % 256, x % 256])
  {
    FirstPlaces();
    var s: seq<byte> := [x / 256 % 256, x % 256];
    assert s[0] == x / Place(1) % 256 && s[1] == x / Place(0) % 256;
  }

  lemma PlacesOfU16(x: nat)
    ensures Places(x, U16(x)) && NumberIn(U16(x)) == x % 0x1_0000
  {
    hide Places;
    TwoPlaces(x);
    TwoBytes(x / 256 % 256, x % 256);
    hide NumberIn;
    assert x % 0x1_0000 == x / 256 % 256 * 256 + x % 256;
  }

  // A number of four bytes in two halves.
  lemma Halved(x: nat)
    ensures x / 0x1_0000 / 256 % 256 == x / 0x100_0000 % 256
    ensures x / 0x1_0000 == x / 0x100_0000 * 256 + x / 0x1_0000 % 256
    ensures x % 0x1_0000 / 256 == x / 256 % 256
  {
    var q, r := x / 0x100_0000, x % 0x100_0000;
    assert x / 0x1_0000 == 256 * q + r / 0x1_0000;
  }

  lemma PlacesOfU32(x: nat)
    ensures Places(x, U32(x)) && (x < 0x1_0000_0000 ==> NumberIn(U32(x)) == x)
  {
    var hi := x / 0x1_0000;
    var s: seq<byte> := [hi / 256 % 256, hi % 256, x / 256 % 256, x % 256];
    assert U32(x) == s;
    Halved(x);
    FirstPlaces();
    assert Places(x, s);
    FourBytes(s[0], s[1], s[2], s[3]);
    TwoBytes(s[2], s[3]);
    hide NumberIn;
    if x < 0x1_0000_0000 {
      assert s[0] as nat == x / 0x100_0000;
      assert NumberIn(s) == 0x1_0000 * hi + x % 0x1_0000;
    }
  }

  // The mark of truncation is the tenth bit of the flags, from below.
  lemma TruncatedIsBit(high: nat, bit: nat, low: nat)
    requires bit < 2 && low < 0x200
    ensures Truncated(high * 0x400 + bit * 0x200 + low) <==> bit == 1
  {
    QuotientIs(high * 0x400 + bit * 0x200 + low, high * 2 + bit);
  }

  // ------------------------------------------------------- field by field

  predicate Numeric(part: Part, width: nat, x: nat) {
    part.Octets? && |part.bytes| == width && NumberIn(part.bytes) == x
  }

  // A record as it is read: its numbers, its addresses, and names where it has
  // them.
  predicate RecordTold(read: seq<Part>, rr: RR) {
    && |read| == 5 + |rr.rdata|
    && read[0].Domain?
    && Numeric(read[1], 2, rr.rtype) && Numeric(read[2], 2, rr.qclass) && Numeric(read[3], 4, rr.ttl)
    && Numeric(read[4], 2, rr.rdlength)
    && forall i :: 0 <= i < |rr.rdata| ==>
         if rr.rdata[i].Octets? then read[5 + i] == rr.rdata[i] else read[5 + i].Domain?
  }

  // The same with the names told in full.
  predicate NamesTold(read: seq<Part>, rr: RR) {
    && |read| == 5 + |rr.rdata|
    && read[0] == Domain(Display(Said(rr.name)), true)
    && forall i :: 0 <= i < |rr.rdata| && rr.rdata[i].Domain? ==>
         read[5 + i] == Domain(Display(Said(rr.rdata[i].text)), rr.rdata[i].compressible)
  }

  // Types, and which data go with each.
  lemma LayoutExactly(rtype: nat, rdata: seq<Part>)
    ensures Modelled(rtype) <==> rtype in {1, 2, 6, 33}
    ensures rtype == 1 ==> (Follows(RdataLayout(rtype), rdata) <==>
              |rdata| == 1 && rdata[0].Octets? && |rdata[0].bytes| == 4)
    ensures rtype == 2 ==> (Follows(RdataLayout(rtype), rdata) <==>
              |rdata| == 1 && rdata[0].Domain? && rdata[0].compressible)
    ensures rtype == 6 ==> (Follows(RdataLayout(rtype), rdata) <==>
              && |rdata| == 7 && rdata[0].Domain? && rdata[0].compressible
              && rdata[1].Domain? && rdata[1].compressible
              && forall i :: 2 <= i < 7 ==> rdata[i].Octets? && |rdata[i].bytes| == 4)
    ensures rtype == 33 ==> (Follows(RdataLayout(rtype), rdata) <==>
              && |rdata| == 4 && rdata[3].Domain? && !rdata[3].compressible
              && forall i :: 0 <= i < 3 ==> rdata[i].Octets? && |rdata[i].bytes| == 2)
  {
  }

  lemma PartsTold(rr: RR, names: seq<Meaning>)
    requires RecordOk(rr) && rr.rdlength < 0x1_0000 && |names| == |Parts(rr)|
    ensures RecordTold(AllSeen(Parts(rr), names), rr)
  {
    PlacesOfU16(rr.rtype);
    PlacesOfU16(rr.qclass);
    PlacesOfU32(rr.ttl);
    PlacesOfU16(rr.rdlength);
    hide NumberIn, Places, U16, U32, WellFormed;
  }

  /**
   * Whenever a record of a packed message is read at all, its type, class, time
   * to live and length are read as what they were, and so are the numbers and
   * addresses of its data; if it is read whole, its names are, too.
   */
  lemma RecordNumbers(m: Message, msg: seq<byte>, compress: bool, k: nat, whole: seq<byte>) returns (length: nat)
    requires MessageOk(m) && k < |Records(m)| && PackMessage(m, msg, compress).Some?
    requires var last := PackMessage(m, msg, compress).value; last.msg[..last.off] <= whole
    ensures var r := UnpackRR(whole, PlanBefore(m, compress, k).end);
            var rr, rr' := Records(m)[k], Records(m)[k].(rdlength := length);
            r.Some? ==> RecordTold(r.value.0, rr') && (r.value.0 == AllShown(Parts(rr')) ==> NamesTold(r.value.0, rr))
  {
    hide PackMessage, UnpackRR, PlanParts, PlanBefore, RecordTold, NamesTold, AllSeen, AllShown, Parts, Short,
         RightParts, PartsStand, StartOf, RecordOk;
    length := RecordsSurvive(m, msg, compress, k, whole);
    var rr, before := Records(m)[k], PlanBefore(m, compress, k);
    assert RecordOk(rr);
    LengthOk(rr, length);
    ShownTold(rr.(rdlength := length), rr);
    PartsTold(rr.(rdlength := length), PlanParts(Parts(rr), compress, before.end, before.means).names);
  }

  lemma LengthOk(rr: RR, length: nat)
    requires RecordOk(rr)
    ensures RecordOk(rr.(rdlength := length))
  {
    hide WellFormed, Follows;
  }

  // Fields that would stand at the very end of a message are read as nothing: zeros,
  // and empty names. So are questions that are counted but not there; a record that
  // is not there has type zero, which is not modelled.
  predicate IsNothing(field: Field, part: Part) {
    match field
    case Width(n) => part.Octets? && |part.bytes| == n && forall x <- part.bytes :: x == 0
    case NameField(compressible) => part == Domain([], compressible)
  }

  predicate AllNothing(layout: seq<Field>, parts: seq<Part>) {
    |parts| == |layout| && forall i :: 0 <= i < |layout| ==> IsNothing(layout[i], parts[i])
  }

  lemma {:induction false} FieldsAtEnd(layout: seq<Field>, msg: seq<byte>)
    ensures var r := UnpackFields(layout, msg, |msg|, None);
            r.Some? && AllNothing(layout, r.value.0) && r.value.1 == |msg|
    decreases |layout|
  {
    if layout != [] {
      FieldsAtEnd(layout[1..], msg);
    }
  }

  lemma QuestionAtEnd(msg: seq<byte>)
    ensures var r := UnpackQuestions(msg, |msg|, 1);
            r.Some? && |r.value.0| == 1 && AllNothing(QUESTION, r.value.0[0]) && r.value.1 == |msg|
  {
    hide UnpackFields;
    FieldsAtEnd(QUESTION, msg);
    assert UnpackQuestions(msg, |msg|, 0) == Some(([], |msg|));
  }

  lemma RecordAtEnd(msg: seq<byte>)
    ensures UnpackRR(msg, |msg|) == None
  {
    hide UnpackFields;
    FieldsAtEnd(HEADER, msg);
    var head := UnpackFields(HEADER, msg, |msg|, None).value.0;
    assert HEADER[1] == Width(2) && IsNothing(HEADER[1], head[1]);
    var bytes := head[1].bytes;
    assert bytes[0] in bytes && bytes[1] in bytes;
    assert FromU16(bytes) == 0;
  }

  // A question as it is read.
  predicate QuestionTold(read: seq<Part>, q: Question) {
    && |read| == 3 && read[0] == Domain(Display(Said(q.name)), true)
    && Numeric(read[1], 2, q.qtype % 0x1_0000) && Numeric(read[2], 2, q.qclass % 0x1_0000)
  }

  predicate TopTold(read: seq<Part>, m: Message) {
    && |read| == 6
    && Numeric(read[0], 2, m.id % 0x1_0000) && Numeric(read[1], 2, m.bits % 0x1_0000)
    && Numeric(read[2], 2, |m.questions| % 0x1_0000) && Numeric(read[3], 2, |m.answer| % 0x1_0000)
    && Numeric(read[4], 2, |m.authority| % 0x1_0000) && Numeric(read[5], 2, |m.additional| % 0x1_0000)
  }

  predicate SectionTold(read: seq<seq<Part>>, rrs: seq<RR>) {
    |read| == |rrs| && forall i :: 0 <= i < |rrs| ==>
      |read[i]| >= 5 && RecordTold(read[i], rrs[i].(rdlength := Number(read[i][4]))) && NamesTold(read[i], rrs[i])
  }

  predicate MessageTold(r: Reading, m: Message) {
    && TopTold(r.top, m)
    && |r.questions| == |m.questions|
    && (forall i :: 0 <= i < |m.questions| ==> QuestionTold(r.questions[i], m.questions[i]))
    && SectionTold(r.answer, m.answer) && SectionTold(r.authority, m.authority)
    && SectionTold(r.additional, m.additional)
  }

  lemma QuestionNumbers(q: Question)
    ensures QuestionTold(AllShown(QuestionParts(q)), q)
  {
    PlacesOfU16(q.qtype);
    PlacesOfU16(q.qclass);
    hide NumberIn, Places, U16;
  }

  lemma TopNumbers(m: Message)
    ensures TopTold(AllShown(Top(m)), m)
  {
    PlacesOfU16(m.id); PlacesOfU16(m.bits);
    PlacesOfU16(|m.questions|); PlacesOfU16(|m.answer|); PlacesOfU16(|m.authority|); PlacesOfU16(|m.additional|);
    hide NumberIn, Places, U16;
  }

  lemma SectionNumbers(sent: seq<RR>, rrs: seq<RR>)
    requires SameRecords(sent, rrs) && forall rr <- rrs :: RecordOk(rr)
    ensures SectionTold(ShownRecords(sent), rrs)
  {
    hide RecordTold, NamesTold, AllShown, RecordOk, Parts;
    forall i | 0 <= i < |rrs|
      ensures var read := ShownRecords(sent)[i];
              |read| >= 5 && RecordTold(read, rrs[i].(rdlength := Number(read[4]))) && NamesTold(read, rrs[i])
    {
      assert RecordOk(rrs[i]);
      ShownTold(sent[i], rrs[i]);
    }
  }

  lemma ShownTold(sent: RR, rr: RR)
    requires RecordOk(rr) && sent == rr.(rdlength := sent.rdlength)
    ensures var read := AllShown(Parts(sent));
            |read| >= 5 && RecordTold(read, rr.(rdlength := Number(read[4]))) && NamesTold(read, rr)
  {
    hide RecordTold, NamesTold, RecordOk;
    NumbersShown(sent, rr);
    NamesShown(sent, rr);
  }

  lemma NumbersShown(sent: RR, rr: RR)
    requires RecordOk(rr) && sent == rr.(rdlength := sent.rdlength)
    ensures var read := AllShown(Parts(sent)); |read| >= 5 && RecordTold(read, rr.(rdlength := Number(read[4])))
  {
    PlacesOfU16(rr.rtype);
    PlacesOfU16(rr.qclass);
    PlacesOfU32(rr.ttl);
    hide NumberIn, Places, U16, U32, WellFormed, Said, Display;
  }

  lemma NamesShown(sent: RR, rr: RR)
    requires sent == rr.(rdlength := sent.rdlength)
    ensures NamesTold(AllShown(Parts(sent)), rr)
  {
    hide U16, U32, Said, Display;
  }

  /**
   * A message that survives: every name, number and address of it is read as what
   * it was.
   */
  lemma MessageNumbers(m: Message, msg: seq<byte>, compress: bool, whole: seq<byte>)
    requires MessageOk(m) && PackMessage(m, msg, compress).Some?
    requires var last := PackMessage(m, msg, compress).value; last.msg[..last.off] <= whole
    requires ReadWhole(m) && RightParts(MessageParts(m), compress, 0, map[])
    requires Short(PlanParts(MessageParts(m), compress, 0, map[]).names)
    ensures UnpackMessage(whole).Some? && MessageTold(UnpackMessage(whole).value, m)
  {
    hide PackMessage, UnpackMessage, PlanParts, RightParts, Short, ReadWhole, MessageParts, RecordOk, QuestionTold,
         TopTold, SectionTold, SameRecords;
    var sent := MessageSurvives(m, msg, compress, whole);
    SameTop(sent, m);
    TopNumbers(m);
    TopShown(m);
    forall i | 0 <= i < |m.questions|
      ensures QuestionTold(ShownQuestions(m.questions)[i], m.questions[i])
    {
      QuestionNumbers(m.questions[i]);
    }
    SectionsOk(m);
    SectionNumbers(sent.answer, m.answer);
    SectionNumbers(sent.authority, m.authority);
    SectionNumbers(sent.additional, m.additional);
  }
}
