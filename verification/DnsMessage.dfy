/**
 * Whole messages (miekg/dns: PackBuffer, Unpack and Len in msg.go).
 *
 * A message is its header with the counts, the questions, and the records of
 * three sections, packed one behind the other with one compression table into a
 * buffer of the uncompressed length.
 */
module DnsMessage {
  import opened Common
  import opened DnsName
  import opened DnsPack
  import opened DnsText
  import opened DnsCompression
  import opened DnsMeaning
  import opened DnsRecord

  datatype Question = Question(name: seq<byte>, qtype: nat, qclass: nat)

  datatype Message = Message(id: nat, bits: nat, questions: seq<Question>, answer: seq<RR>, authority: seq<RR>,
                             additional: seq<RR>)

  const TOP: seq<Field> := [Width(2), Width(2), Width(2), Width(2), Width(2), Width(2)]

  const QUESTION: seq<Field> := [NameField(true), Width(2), Width(2)]

  // The header: identifier, flags, and the four counts in sixteen bits each.
  function Top(m: Message): seq<Part> {
    [Octets(U16(m.id)), Octets(U16(m.bits)), Octets(U16(|m.questions|)), Octets(U16(|m.answer|)),
     Octets(U16(|m.authority|)), Octets(U16(|m.additional|))]
  }

  function QuestionParts(q: Question): seq<Part> {
    [Domain(q.name, true), Octets(U16(q.qtype)), Octets(U16(q.qclass))]
  }

  function Records(m: Message): seq<RR> {
    m.answer + m.authority + m.additional
  }

  // All fields of a message in the order in which they are packed.
  function MessageParts(m: Message): seq<Part> {
    Top(m) + QuestionsParts(m.questions) + RecordsParts(m.answer) + RecordsParts(m.authority) +
    RecordsParts(m.additional)
  }

  function QuestionsParts(qs: seq<Question>): seq<Part> {
    if qs == [] then [] else QuestionParts(qs[0]) + QuestionsParts(qs[1..])
  }

  function RecordsParts(rrs: seq<RR>): seq<Part> {
    if rrs == [] then [] else Parts(rrs[0]) + RecordsParts(rrs[1..])
  }

  // Known record types and well-formed names.
  predicate MessageOk(m: Message) {
    (forall q <- m.questions :: WellFormed(q.name)) && (forall rr <- Records(m) :: RecordOk(rr))
  }

  // ------------------------------------------------------------- packing

  function PackQuestions(st: State, qs: seq<Question>, compress: bool): (r: Option<State>)
    requires Sound(st)
    ensures r.Some? ==> Sound(r.value) && |r.value.msg| == |st.msg|
    decreases qs
  {
    if qs == [] then Some(st)
    else match PackParts(st, QuestionParts(qs[0]), compress)
      case None => None
      case Some(mid) => PackQuestions(mid, qs[1..], compress)
  }

  function PackRRs(st: State, rrs: seq<RR>, compress: bool): (r: Option<State>)
    requires Sound(st)
    ensures r.Some? ==> Sound(r.value) && |r.value.msg| == |st.msg|
    decreases rrs
  {
    if rrs == [] then Some(st)
    else match PackRR(st, rrs[0], compress)
      case None => None
      case Some(mid) => PackRRs(mid, rrs[1..], compress)
  }

  // The header and the questions.
  function PackFront(m: Message, msg: seq<byte>, compress: bool): (r: Option<State>)
    ensures r.Some? ==> Sound(r.value) && |r.value.msg| == |msg|
  {
    match PackParts(State(msg, 0, map[]), Top(m), compress)
    case None => None
    case Some(st) => PackQuestions(st, m.questions, compress)
  }

  function PackMessage(m: Message, msg: seq<byte>, compress: bool): (r: Option<State>)
    ensures r.Some? ==> Sound(r.value) && |r.value.msg| == |msg|
  {
    match PackFront(m, msg, compress)
    case None => None
    case Some(st) =>
      match PackRRs(st, m.answer, compress)
      case None => None
      case Some(st1) =>
        match PackRRs(st1, m.authority, compress)
        case None => None
        case Some(st2) => PackRRs(st2, m.additional, compress)
  }

  // ------------------------------------------------------------ unpacking

  function UnpackQuestions(msg: seq<byte>, off: nat, n: nat): Option<(seq<seq<Part>>, nat)>
    decreases n
  {
    if n == 0 then Some(([], off))
    else match UnpackFields(QUESTION, msg, off, None)
      case None => None
      case Some((q, next)) =>
        match UnpackQuestions(msg, next, n - 1)
        case None => None
        case Some((qs, end)) => Some(([q] + qs, end))
  }

  function UnpackRRs(msg: seq<byte>, off: nat, n: nat): Option<(seq<seq<Part>>, nat)>
    decreases n
  {
    if n == 0 then Some(([], off))
    else match UnpackRR(msg, off)
      case None => None
      case Some((rr, next)) =>
        match UnpackRRs(msg, next, n - 1)
        case None => None
        case Some((rrs, end)) => Some(([rr] + rrs, end))
  }

  // What a message is read as, and where it ends.
  datatype Reading = Reading(top: seq<Part>, questions: seq<seq<Part>>, answer: seq<seq<Part>>,
                             authority: seq<seq<Part>>, additional: seq<seq<Part>>, end: nat)

  predicate Truncated(bits: nat) { bits / 512 % 2 == 1 }

  // The number in the field i of the header.
  function TopNumber(top: seq<Part>, i: nat): nat {
    if i < |top| && top[i].Octets? then FromU16(top[i].bytes) else 0
  }

  // The records of a truncated message are not read at all.
  function UnpackMessage(msg: seq<byte>): Option<Reading> {
    match UnpackFields(TOP, msg, 0, None)
    case None => None
    case Some((top, at)) =>
      match UnpackQuestions(msg, at, TopNumber(top, 2))
      case None => None
      case Some((qs, off)) =>
        if Truncated(TopNumber(top, 1)) then Some(Reading(top, qs, [], [], [], off))
        else UnpackSections(msg, top, qs, off)
  }

  function UnpackSections(msg: seq<byte>, top: seq<Part>, qs: seq<seq<Part>>, off: nat): Option<Reading> {
    match UnpackRRs(msg, off, TopNumber(top, 3))
    case None => None
    case Some((answer, off1)) =>
      match UnpackRRs(msg, off1, TopNumber(top, 4))
      case None => None
      case Some((authority, off2)) =>
        match UnpackRRs(msg, off2, TopNumber(top, 5))
        case None => None
        case Some((additional, end)) => Some(Reading(top, qs, answer, authority, additional, end))
  }

  // ------------------------------------------------------- one section after another

  lemma {:induction false} QuestionsAdd(st: State, qs: seq<Question>, compress: bool)
    requires Sound(st) && PackQuestions(st, qs, compress).Some?
    ensures var st' := PackQuestions(st, qs, compress).value;
            st.off <= st'.off && st.msg[..st.off] <= st'.msg[..st'.off]
    decreases qs
  {
    hide PackParts, InRange;
    if qs != [] {
      PartsAdd(st, QuestionParts(qs[0]), compress);
      QuestionsAdd(PackParts(st, QuestionParts(qs[0]), compress).value, qs[1..], compress);
    }
  }

  lemma {:induction false} RRsAdd(st: State, rrs: seq<RR>, compress: bool)
    requires Sound(st) && (forall rr <- rrs :: WellFormed(rr.name)) && PackRRs(st, rrs, compress).Some?
    ensures var st' := PackRRs(st, rrs, compress).value;
            st.off <= st'.off && st.msg[..st.off] <= st'.msg[..st'.off]
    decreases rrs
  {
    hide PackRR, InRange, WellFormed;
    if rrs != [] {
      RecordAdds(st, rrs[0], compress);
      RRsAdd(PackRR(st, rrs[0], compress).value, rrs[1..], compress);
    }
  }

  lemma {:induction false} RRsSplit(st: State, a: seq<RR>, b: seq<RR>, compress: bool)
    requires Sound(st)
    ensures PackRRs(st, a + b, compress) ==
            match PackRRs(st, a, compress) case None => None case Some(mid) => PackRRs(mid, b, compress)
    decreases a
  {
    hide PackRR, InRange;
    if a == [] {
      assert a + b == b;
    } else {
      assert (a + b)[1..] == a[1..] + b && (a + b)[0] == a[0];
      if PackRR(st, a[0], compress).Some? { RRsSplit(PackRR(st, a[0], compress).value, a[1..], b, compress); }
    }
  }

  lemma NamesOfRRs(rrs: seq<RR>)
    requires forall rr <- rrs :: RecordOk(rr)
    ensures forall rr <- rrs :: WellFormed(rr.name)
  {
    hide WellFormed;
    forall rr <- rrs ensures WellFormed(rr.name) { assert RecordOk(rr); }
  }

  // ------------------------------------------------------------ reading back

  function ShownQuestions(qs: seq<Question>): seq<seq<Part>> {
    seq(|qs|, i requires 0 <= i < |qs| => AllShown(QuestionParts(qs[i])))
  }

  function ShownRecords(rrs: seq<RR>): seq<seq<Part>> {
    seq(|rrs|, i requires 0 <= i < |rrs| => AllShown(Parts(rrs[i])))
  }

  // The same as they are read.
  function QuestionsSeen(qs: seq<Question>, names: seq<Meaning>): (r: seq<seq<Part>>)
    requires |names| == |QuestionsParts(qs)|
    ensures |r| == |qs|
  {
    if qs == [] then []
    else
      var n := |QuestionParts(qs[0])|;
      [AllSeen(QuestionParts(qs[0]), names[..n])] + QuestionsSeen(qs[1..], names[n..])
  }

  function RecordsSeen(rrs: seq<RR>, names: seq<Meaning>): (r: seq<seq<Part>>)
    requires |names| == |RecordsParts(rrs)|
    ensures |r| == |rrs|
  {
    if rrs == [] then []
    else
      var n := |Parts(rrs[0])|;
      [AllSeen(Parts(rrs[0]), names[..n])] + RecordsSeen(rrs[1..], names[n..])
  }

  function ShownMessage(m: Message, end: nat): Reading {
    Reading(AllShown(Top(m)), ShownQuestions(m.questions), ShownRecords(m.answer), ShownRecords(m.authority),
            ShownRecords(m.additional), end)
  }

  // The same records but for their length fields.
  predicate SameRecords(sent: seq<RR>, rrs: seq<RR>) {
    |sent| == |rrs| && forall i :: 0 <= i < |rrs| ==> sent[i] == rrs[i].(rdlength := sent[i].rdlength)
  }

  predicate SameMessage(sent: Message, m: Message) {
    && sent == m.(answer := sent.answer, authority := sent.authority, additional := sent.additional)
    && SameRecords(sent.answer, m.answer) && SameRecords(sent.authority, m.authority)
    && SameRecords(sent.additional, m.additional)
  }

  lemma QuestionLayout(q: Question)
    requires WellFormed(q.name)
    ensures Follows(QUESTION, QuestionParts(q)) && NoEmptyOctets(QuestionParts(q))
    ensures forall p <- QuestionParts(q) :: PartOk(p)
  {
    hide WellFormed;
  }

  // What a section holds, if none of its chains is too long.
  function IfShort(names: seq<Meaning>, seen: seq<seq<Part>>, end: nat): Option<(seq<seq<Part>>, nat)> {
    if Short(names) then Some((seen, end)) else None
  }

  // Questions are read as planned.
  lemma {:induction false} QuestionsPacked(st: State, qs: seq<Question>, compress: bool, whole: seq<byte>,
                                           means: Means)
    requires Told(st, means) && Sound(st) && Sensible(means) && (forall q <- qs :: WellFormed(q.name))
    requires PackQuestions(st, qs, compress).Some?
    requires var st' := PackQuestions(st, qs, compress).value; st'.msg[..st'.off] <= whole
    ensures var st' := PackQuestions(st, qs, compress).value;
            var plan := PlanParts(QuestionsParts(qs), compress, st.off, means);
            && Told(st', plan.means) && Sensible(plan.means) && st'.off == plan.end
            && UnpackQuestions(whole, st.off, |qs|) == IfShort(plan.names, QuestionsSeen(qs, plan.names), plan.end)
            && (QuestionsSeen(qs, plan.names) == ShownQuestions(qs) <==>
                RightParts(QuestionsParts(qs), compress, st.off, means))
    decreases qs
  {
    hide Told, PackParts, InRange, PartsStand, UnpackFields, Follows, QuestionParts, Short, PartOk, WellFormed,
         PlanParts, RightParts, Sensible, AllSeen, AllShown;
    if qs == [] {
      NothingPlanned(compress, st.off, means);
      assert ShownQuestions(qs) == [];
    } else {
      var q, tail := qs[0], qs[1..];
      assert q in qs && forall x <- tail :: x in qs;
      QuestionLayout(q);
      var mid, first := PackParts(st, QuestionParts(q), compress).value,
                        PlanParts(QuestionParts(q), compress, st.off, means);
      QuestionsAdd(mid, tail, compress);
      PartsPacked(st, QuestionParts(q), compress, whole, means);
      SeenExactly(QuestionParts(q), compress, st.off, means);
      QuestionsPacked(mid, tail, compress, whole, first.means);
      PartsRead(QUESTION, QuestionParts(q), whole, st.off, first.names, mid.off, None);
      var rest := PlanParts(QuestionsParts(tail), compress, first.end, first.means);
      PlanSplits(QuestionParts(q), QuestionsParts(tail), compress, st.off, means);
      RightSplits(QuestionParts(q), QuestionsParts(tail), compress, st.off, means);
      ShortJoin(first.names, rest.names);
      Halves(first.names, rest.names);
      assert ShownQuestions(qs) == [AllShown(QuestionParts(q))] + ShownQuestions(tail);
      FirstSame(AllSeen(QuestionParts(q), first.names), QuestionsSeen(tail, rest.names),
                AllShown(QuestionParts(q)), ShownQuestions(tail));
    }
  }

  lemma NothingPlanned(compress: bool, off: nat, means: Means)
    ensures PlanParts([], compress, off, means) == PartsPlan([], off, means) && RightParts([], compress, off, means)
    ensures Short([])
  {
  }

  lemma Halves(a: seq<Meaning>, b: seq<Meaning>)
    ensures (a + b)[..|a|] == a && (a + b)[|a|..] == b
  {
  }

  lemma FirstSame(a: seq<Part>, moreA: seq<seq<Part>>, b: seq<Part>, moreB: seq<seq<Part>>)
    ensures [a] + moreA == [b] + moreB <==> a == b && moreA == moreB
  {
    var x, y := [a] + moreA, [b] + moreB;
    assert x[1..] == moreA && y[1..] == moreB && x[0] == a && y[0] == b;
  }

  // And so are records.
  lemma {:induction false} RRsPacked(st: State, rrs: seq<RR>, compress: bool, whole: seq<byte>, means: Means)
    returns (sent: seq<RR>)
    requires Told(st, means) && Sound(st) && Sensible(means) && (forall rr <- rrs :: RecordOk(rr))
    requires PackRRs(st, rrs, compress).Some?
    requires var st' := PackRRs(st, rrs, compress).value; st'.msg[..st'.off] <= whole
    ensures SameRecords(sent, rrs)
    ensures var st', plan := PackRRs(st, rrs, compress).value, PlanParts(RecordsParts(rrs), compress, st.off, means);
            && Told(st', plan.means) && Sensible(plan.means) && st'.off == plan.end
            && |RecordsParts(sent)| == |plan.names|
            && UnpackRRs(whole, st.off, |rrs|) == IfShort(plan.names, RecordsSeen(sent, plan.names), plan.end)
            && (RecordsSeen(sent, plan.names) == ShownRecords(sent) <==>
                RightParts(RecordsParts(rrs), compress, st.off, means))
    decreases rrs
  {
    hide Told, PackRR, RecordOk, InRange, PartsStand, UnpackRR, Parts, Short, WellFormed, AllShown, AllSeen, PlanParts,
         RightParts, Sensible;
    if rrs == [] {
      sent := [];
      NothingPlanned(compress, st.off, means);
      assert ShownRecords(sent) == [];
    } else {
      var rr, tail := rrs[0], rrs[1..];
      assert rr in rrs && forall x <- tail :: x in rrs;
      NamesOfRRs(tail);
      var mid, first := PackRR(st, rr, compress).value, PlanParts(Parts(rr), compress, st.off, means);
      RRsAdd(mid, tail, compress);
      var length := RecordPacked(st, rr, compress, whole, means);
      var others := RRsPacked(mid, tail, compress, whole, first.means);
      var rr' := rr.(rdlength := length);
      sent := [rr'] + others;
      PlanLength(rr, length, compress, st.off, means);
      SeenExactlyOf(rr, rr', compress, st.off, means);
      var rest := PlanParts(RecordsParts(tail), compress, first.end, first.means);
      PlanSplits(Parts(rr), RecordsParts(tail), compress, st.off, means);
      RightSplits(Parts(rr), RecordsParts(tail), compress, st.off, means);
      SeenJoin(rr', others, first.names, rest.names);
      SameGrows(rr', others, rrs);
      PartsOfFirst(rrs);
      hide RecordsSeen, ShownRecords, RecordsParts, SameRecords, IfShort, UnpackRRs;
      SectionRead(whole, st.off, |tail|, AllSeen(Parts(rr'), first.names), first.names, first.end,
                RecordsSeen(others, rest.names), rest.names, rest.end);
      FirstSame(AllSeen(Parts(rr'), first.names), RecordsSeen(others, rest.names), AllShown(Parts(rr')),
                ShownRecords(others));
    }
  }

  lemma SectionRead(whole: seq<byte>, off: nat, n: nat, x: seq<Part>, a: seq<Meaning>, mid: nat, rest: seq<seq<Part>>,
                  b: seq<Meaning>, end: nat)
    requires UnpackRR(whole, off) == if Short(a) then Some((x, mid)) else None
    requires UnpackRRs(whole, mid, n) == IfShort(b, rest, end)
    ensures UnpackRRs(whole, off, n + 1) == IfShort(a + b, [x] + rest, end)
  {
    hide UnpackRR, Short;
    ShortJoin(a, b);
  }

  lemma SameGrows(rr': RR, others: seq<RR>, rrs: seq<RR>)
    requires rrs != [] && rr' == rrs[0].(rdlength := rr'.rdlength) && SameRecords(others, rrs[1..])
    ensures SameRecords([rr'] + others, rrs)
  {
  }

  lemma PartsOfFirst(rrs: seq<RR>)
    requires rrs != []
    ensures RecordsParts(rrs) == Parts(rrs[0]) + RecordsParts(rrs[1..])
  {
  }

  lemma SeenJoin(rr: RR, others: seq<RR>, a: seq<Meaning>, b: seq<Meaning>)
    requires |a| == |Parts(rr)| && |b| == |RecordsParts(others)|
    ensures |RecordsParts([rr] + others)| == |a + b|
    ensures RecordsSeen([rr] + others, a + b) == [AllSeen(Parts(rr), a)] + RecordsSeen(others, b)
    ensures ShownRecords([rr] + others) == [AllShown(Parts(rr))] + ShownRecords(others)
  {
    hide Parts, AllSeen, AllShown;
    assert ([rr] + others)[1..] == others;
    Halves(a, b);
  }

  lemma SeenExactlyOf(rr: RR, rr': RR, compress: bool, off: nat, means: Means)
    requires RecordOk(rr) && rr' == rr.(rdlength := rr'.rdlength) && Sensible(means)
    ensures var names := PlanParts(Parts(rr), compress, off, means).names;
            |names| == |Parts(rr')| &&
            (AllSeen(Parts(rr'), names) == AllShown(Parts(rr')) <==> RightParts(Parts(rr), compress, off, means))
  {
    hide PlanParts, RightParts, Parts, AllSeen, AllShown, WellFormed, PartOk, Sensible;
    PlanLength(rr, rr'.rdlength, compress, off, means);
    RecordPartsOk(rr');
    SeenExactly(Parts(rr'), compress, off, means);
  }

  // The offset where the record k of a message is packed.
  function StartOf(m: Message, msg: seq<byte>, compress: bool, k: nat): (r: Option<State>)
    requires k <= |Records(m)|
    ensures r.Some? ==> Sound(r.value) && |r.value.msg| == |msg|
  {
    match PackFront(m, msg, compress)
    case None => None
    case Some(st) => PackRRs(st, Records(m)[..k], compress)
  }

  lemma MessageIsRecords(m: Message, msg: seq<byte>, compress: bool)
    ensures PackMessage(m, msg, compress) ==
            match PackFront(m, msg, compress)
            case None => None
            case Some(st) => PackRRs(st, Records(m), compress)
  {
    hide PackFront, PackRRs;
    if PackFront(m, msg, compress).Some? {
      var st := PackFront(m, msg, compress).value;
      RRsSplit(st, m.answer + m.authority, m.additional, compress);
      RRsSplit(st, m.answer, m.authority, compress);
    }
  }

  lemma TopOk(m: Message)
    ensures Follows(TOP, Top(m)) && NoEmptyOctets(Top(m)) && |Top(m)| == 6
    ensures forall p <- Top(m) :: PartOk(p)
  {
  }

  lemma NothingTold(msg: seq<byte>)
    ensures Told(State(msg, 0, map[]), map[]) && Sensible(map[])
  {
    assert AgreeAll(msg[..0], map[], map[]);
  }

  // What will be read of the header and the questions, and of the records in
  // front of the record k.
  function PlanFront(m: Message, compress: bool): PartsPlan {
    PlanParts(Top(m) + QuestionsParts(m.questions), compress, 0, map[])
  }

  function PlanBefore(m: Message, compress: bool, k: nat): PartsPlan
    requires k <= |Records(m)|
  {
    var front := PlanFront(m, compress);
    PlanParts(RecordsParts(Records(m)[..k]), compress, front.end, front.means)
  }

  // The header and the questions leave the table right.
  lemma FrontTold(m: Message, msg: seq<byte>, compress: bool)
    requires MessageOk(m) && PackFront(m, msg, compress).Some?
    ensures var st, plan := PackFront(m, msg, compress).value, PlanFront(m, compress);
            Told(st, plan.means) && Sensible(plan.means) && st.off == plan.end
  {
    hide Told, PackParts, InRange, PartsStand, PackQuestions, PartOk, Top, UnpackQuestions, PlanParts, Sensible;
    var init := State(msg, 0, map[]);
    NothingTold(msg);
    ToldSound(init, map[]);
    TopOk(m);
    var st := PackParts(init, Top(m), compress).value;
    var last := PackFront(m, msg, compress).value;
    QuestionsAdd(st, m.questions, compress);
    PlanSplits(Top(m), QuestionsParts(m.questions), compress, 0, map[]);
    SeenExactly(Top(m), compress, 0, map[]);
    PartsPacked(init, Top(m), compress, last.msg[..last.off], map[]);
    QuestionsPacked(st, m.questions, compress, last.msg[..last.off], PlanParts(Top(m), compress, 0, map[]).means);
  }

  /**
   * Every record of a message, compressed or not, in every buffer that begins
   * with the packed bytes: where it stands, what its names are read as and
   * through how many pointers is planned from the texts and lengths. It is read
   * there with its true length, ending where the packer went on, if and only if
   * none of its chains is longer than ten, and refused otherwise; and it is read
   * whole if and only if, besides, each of its names is read in full.
   */
  lemma RecordsSurvive(m: Message, msg: seq<byte>, compress: bool, k: nat, whole: seq<byte>) returns (length: nat)
    requires MessageOk(m) && k < |Records(m)| && PackMessage(m, msg, compress).Some?
    requires var last := PackMessage(m, msg, compress).value; last.msg[..last.off] <= whole
    ensures StartOf(m, msg, compress, k).Some? && StartOf(m, msg, compress, k + 1).Some? && length < 65536
    ensures var rr, before := Records(m)[k], PlanBefore(m, compress, k);
            var rr', plan := rr.(rdlength := length), PlanParts(Parts(rr), compress, before.end, before.means);
            && StartOf(m, msg, compress, k).value.off == before.end
            && StartOf(m, msg, compress, k + 1).value.off == plan.end
            && |Parts(rr')| == |plan.names| && PartsStand(whole, before.end, Parts(rr'), plan.names, plan.end)
            && UnpackRR(whole, before.end) ==
               (if Short(plan.names) then Some((AllSeen(Parts(rr'), plan.names), plan.end)) else None)
            && (UnpackRR(whole, before.end) == Some((AllShown(Parts(rr')), plan.end)) <==>
                Short(plan.names) && RightParts(Parts(rr), compress, before.end, before.means))
  {
    hide Told, PackRR, RecordOk, PackFront, UnpackRR, InRange, PartsStand, PackMessage, Short, Parts, PlanParts,
         PlanFront, RightParts, Sensible, AllSeen, AllShown;
    MessageIsRecords(m, msg, compress);
    FrontTold(m, msg, compress);
    var front := PlanFront(m, compress);
    length := RecordSurvives(PackFront(m, msg, compress).value, Records(m), compress, k, whole, front.means);
  }

  lemma RecordSurvives(st: State, rrs: seq<RR>, compress: bool, k: nat, whole: seq<byte>, means: Means)
    returns (length: nat)
    requires Told(st, means) && Sound(st) && Sensible(means) && (forall rr <- rrs :: RecordOk(rr)) && k < |rrs|
    requires PackRRs(st, rrs, compress).Some?
    requires var last := PackRRs(st, rrs, compress).value; last.msg[..last.off] <= whole
    ensures PackRRs(st, rrs[..k], compress).Some? && PackRRs(st, rrs[..k + 1], compress).Some? && length < 65536
    ensures var before := PlanParts(RecordsParts(rrs[..k]), compress, st.off, means);
            var plan := PlanParts(Parts(rrs[k]), compress, before.end, before.means);
            var rr' := rrs[k].(rdlength := length);
            && PackRRs(st, rrs[..k], compress).value.off == before.end
            && PackRRs(st, rrs[..k + 1], compress).value.off == plan.end
            && |Parts(rr')| == |plan.names| && PartsStand(whole, before.end, Parts(rr'), plan.names, plan.end)
            && UnpackRR(whole, before.end) ==
               (if Short(plan.names) then Some((AllSeen(Parts(rr'), plan.names), plan.end)) else None)
            && (UnpackRR(whole, before.end) == Some((AllShown(Parts(rr')), plan.end)) <==>
                Short(plan.names) && RightParts(Parts(rrs[k]), compress, before.end, before.means))
  {
    hide Told, PackRR, PackRRs, RecordOk, InRange, PartsStand, UnpackRR, Short, Parts, RecordsParts, AllShown, AllSeen,
         PlanParts, RightParts, Sensible;
    assert rrs[k] in rrs && forall x <- rrs[..k] :: x in rrs;
    RecordBetween(st, rrs, compress, k);
    var mid := PackRRs(st, rrs[..k], compress).value;
    var sent := RRsPacked(st, rrs[..k], compress, mid.msg[..mid.off], means);
    var before := PlanParts(RecordsParts(rrs[..k]), compress, st.off, means);
    length := RecordPacked(mid, rrs[k], compress, whole, before.means);
  }

  // The record k is packed behind those before it, and stays.
  lemma RecordBetween(st: State, rrs: seq<RR>, compress: bool, k: nat)
    requires Sound(st) && (forall rr <- rrs :: RecordOk(rr)) && k < |rrs| && PackRRs(st, rrs, compress).Some?
    ensures PackRRs(st, rrs[..k], compress).Some?
    ensures var mid, last := PackRRs(st, rrs[..k], compress).value, PackRRs(st, rrs, compress).value;
            && PackRR(mid, rrs[k], compress).Some?
            && PackRRs(st, rrs[..k + 1], compress) == PackRR(mid, rrs[k], compress)
            && var next := PackRR(mid, rrs[k], compress).value;
               next.off <= last.off && next.msg[..next.off] <= last.msg[..last.off]
  {
    hide PackRR, RecordOk, InRange, WellFormed;
    var front, rr, back := rrs[..k], rrs[k], rrs[k + 1..];
    assert rrs == front + ([rr] + back) && ([rr] + back)[1..] == back && rrs[..k + 1] == front + [rr];
    RRsSplit(st, front, [rr] + back, compress);
    RRsSplit(st, front, [rr], compress);
    var mid := PackRRs(st, front, compress).value;
    var next := PackRR(mid, rr, compress).value;
    assert [rr][1..] == [] && PackRRs(mid, [rr], compress) == Some(next);
    assert forall x <- back :: x in rrs;
    NamesOfRRs(rrs);
    RRsAdd(next, back, compress);
  }

  // ----------------------------------------------- conditions on the texts alone

  lemma {:induction false} QuestionInside(qs: seq<Question>, q: Question)
    requires q in qs
    ensures forall p <- QuestionParts(q) :: p in QuestionsParts(qs)
  {
    hide QuestionParts;
    if q != qs[0] { QuestionInside(qs[1..], q); }
  }

  lemma {:induction false} RecordInside(rrs: seq<RR>, rr: RR)
    requires rr in rrs
    ensures forall p <- Parts(rr) :: p in RecordsParts(rrs)
  {
    hide Parts;
    if rr != rrs[0] { RecordInside(rrs[1..], rr); }
  }

  lemma {:induction false} QuestionsOk(qs: seq<Question>)
    requires forall q <- qs :: WellFormed(q.name)
    ensures forall p <- QuestionsParts(qs) :: PartOk(p)
  {
    hide WellFormed;
    if qs != [] { QuestionsOk(qs[1..]); }
  }

  lemma {:induction false} RRsPartsOk(rrs: seq<RR>)
    requires forall rr <- rrs :: RecordOk(rr)
    ensures forall p <- RecordsParts(rrs) :: PartOk(p)
  {
    hide RecordOk, Parts, PartOk;
    if rrs != [] {
      assert rrs[0] in rrs && forall x <- rrs[1..] :: x in rrs;
      RecordPartsOk(rrs[0]);
      RRsPartsOk(rrs[1..]);
    }
  }

  lemma MessagePartsOk(m: Message)
    requires MessageOk(m)
    ensures forall p <- MessageParts(m) :: PartOk(p)
  {
    hide RecordOk, PartOk, WellFormed, Top, QuestionsParts, RecordsParts;
    TopOk(m);
    QuestionsOk(m.questions);
    assert forall rr <- m.answer :: rr in Records(m);
    assert forall rr <- m.authority :: rr in Records(m);
    assert forall rr <- m.additional :: rr in Records(m);
    RRsPartsOk(m.answer);
    RRsPartsOk(m.authority);
    RRsPartsOk(m.additional);
  }

  // The keys of all names that are packed with compression.
  function MessageKeys(m: Message, compress: bool): Keys {
    set p <- MessageParts(m), k <- NameSuffixes(ItemOf(p, compress)) :: k
  }

  predicate Closed(part: Part) {
    part.Domain? ==> !LastEscaped(part.text)
  }

  // If no key stands for two names, the names are read as the packer takes them,
  // and in full if and only if no last dot is escaped.
  lemma {:induction false} TellingParts(parts: seq<Part>, compress: bool, off: nat, means: Means, all: Keys)
    requires Telling(all) && Among(means, all)
    requires forall p <- parts :: PartOk(p) && NameSuffixes(ItemOf(p, compress)) <= all
    ensures Among(PlanParts(parts, compress, off, means).means, all)
    ensures RightParts(parts, compress, off, means) <==> forall p <- parts :: Closed(p)
    ensures var names := PlanParts(parts, compress, off, means).names;
            forall i :: 0 <= i < |parts| && parts[i].Domain? ==> names[i].labels == Named(parts[i].text)
    decreases parts
  {
    hide Telling, Among, NameSuffixes, PlanName, NameRight, WellFormed, LastEscaped, Named;
    if parts != [] {
      var part, rest := parts[0], parts[1..];
      assert part in parts && forall p <- rest :: p in parts;
      assert PartOk(part);
      var first := PlanItem(ItemOf(part, compress), off, means);
      if part.Domain? { NameTelling(part.text, part.compressible && compress, off, means, all); }
      TellingParts(rest, compress, first.end, first.means, all);
      assert (forall p <- parts :: Closed(p)) <==> Closed(part) && forall p <- rest :: Closed(p);
    }
  }

  // A message without such a key has all its names read in full if and only if
  // none of their last dots is escaped.
  lemma TellingMessage(m: Message, compress: bool)
    requires MessageOk(m) && Telling(MessageKeys(m, compress))
    ensures RightParts(MessageParts(m), compress, 0, map[]) <==> forall p <- MessageParts(m) :: Closed(p)
  {
    hide MessageParts, RightParts, PartOk, NameSuffixes, Telling, Closed;
    MessagePartsOk(m);
    assert Among(map[], MessageKeys(m, compress));
    TellingParts(MessageParts(m), compress, 0, map[], MessageKeys(m, compress));
  }

  // A message whose compressible names are free of escapes has no such key, and
  // neither has any message without compression.
  lemma EscapeFreeMessage(m: Message, compress: bool)
    requires compress ==> forall p <- MessageParts(m) :: p.Domain? && p.compressible ==> EscapeFree(p.text)
    ensures Telling(MessageKeys(m, compress))
  {
    hide MessageParts, Suffixes, Parse;
    forall k <- MessageKeys(m, compress) ensures k.1 == Parse(k.0) {
      var p :| p in MessageParts(m) && k in NameSuffixes(ItemOf(p, compress));
      assert compress && p.Domain? && p.compressible;
      OwnTexts(p.text, 0, 0);
    }
  }

  // At most ten labels.
  predicate Shallow(part: Part) {
    part.Domain? ==> |Named(part.text)| <= MAX_POINTERS
  }

  lemma {:induction false} SensibleParts(parts: seq<Part>, compress: bool, off: nat, means: Means)
    requires (forall p <- parts :: PartOk(p)) && Sensible(means)
    ensures var names := PlanParts(parts, compress, off, means).names;
            forall i :: 0 <= i < |parts| ==>
              names[i].depth <= |names[i].labels| && (parts[i].Octets? || !compress ==> names[i].depth == 0)
    decreases parts
  {
    hide PlanName, WellFormed, Sensible, Named;
    if parts != [] {
      var part, rest := parts[0], parts[1..];
      assert part in parts && forall p <- rest :: p in parts;
      assert PartOk(part);
      if part.Domain? {
        PlanSensible(part.text, part.compressible && compress, off, means);
        PlainPlan(part.text, off, means);
      }
      var first := PlanItem(ItemOf(part, compress), off, means);
      SensibleParts(rest, compress, first.end, first.means);
    }
  }

  lemma PlainPlan(text: seq<byte>, off: nat, means: Means)
    ensures PlanName(text, false, off, means).name == Meaning(Named(text), 0)
  {
  }

  /**
   * A message of which every chain is short: every message that is packed without
   * compression; and every one whose names have at most ten labels, if no key
   * stands for two of them.
   */
  lemma ShallowIsShort(m: Message, compress: bool)
    requires MessageOk(m)
    requires !compress || (Telling(MessageKeys(m, compress)) && forall p <- MessageParts(m) :: Shallow(p))
    ensures Short(PlanParts(MessageParts(m), compress, 0, map[]).names)
  {
    hide MessageParts, PartOk, NameSuffixes, Telling, Named, PlanParts, RightParts;
    var parts, all := MessageParts(m), MessageKeys(m, compress);
    MessagePartsOk(m);
    SensibleParts(parts, compress, 0, map[]);
    assert Among(map[], all);
    if compress { TellingParts(parts, compress, 0, map[], all); }
    var names := PlanParts(parts, compress, 0, map[]).names;
    forall i | 0 <= i < |names| ensures names[i].depth <= MAX_POINTERS {
      assert parts[i] in parts;
    }
  }

  // ----------------------------------------------------- the message as a whole

  // Every section has a count that sixteen bits can hold.
  predicate Countable(m: Message) {
    |m.questions| < 65536 && |m.answer| < 65536 && |m.authority| < 65536 && |m.additional| < 65536
  }

  // Everything in the message is asked of the reader.
  predicate ReadWhole(m: Message) {
    Countable(m) && (Truncated(m.bits) ==> Records(m) == [])
  }

  lemma TopShown(m: Message)
    ensures AllShown(Top(m)) == Top(m)
    ensures var n := x => x % 65536;
            && TopNumber(Top(m), 1) == n(m.bits) && TopNumber(Top(m), 2) == n(|m.questions|)
            && TopNumber(Top(m), 3) == n(|m.answer|) && TopNumber(Top(m), 4) == n(|m.authority|)
            && TopNumber(Top(m), 5) == n(|m.additional|)
  {
    U16Mod(m.bits);
    U16Mod(|m.questions|);
    U16Mod(|m.answer|);
    U16Mod(|m.authority|);
    U16Mod(|m.additional|);
    hide U16, FromU16;
    assert AllShown(Top(m)) == Top(m);
  }

  lemma SameTop(sent: Message, m: Message)
    requires SameMessage(sent, m)
    ensures Top(sent) == Top(m) && AllShown(Top(sent)) == Top(m)
  {
    hide U16;
    TopShown(sent);
  }

  lemma U16Mod(x: nat)
    ensures FromU16(U16(x)) == x % 65536
  {
  }

  lemma TruncatedMod(bits: nat)
    ensures Truncated(bits % 65536) == Truncated(bits)
  {
    var q, r := bits / 65536, bits % 65536;
    var t := r / 512;
    QuotientIs(bits, 128 * q + t);
    assert (128 * q + t) % 2 == t % 2;
  }

  lemma QuotientIs(x: nat, q: nat)
    requires 512 * q <= x < 512 * q + 512
    ensures x / 512 == q
  {
  }

  lemma {:induction false} ReadLengths(msg: seq<byte>, off: nat, n: nat)
    ensures UnpackRRs(msg, off, n).Some? ==> |UnpackRRs(msg, off, n).value.0| == n
    ensures UnpackQuestions(msg, off, n).Some? ==> |UnpackQuestions(msg, off, n).value.0| == n
    decreases n
  {
    hide UnpackRR, UnpackFields;
    if n > 0 {
      if UnpackRR(msg, off).Some? { ReadLengths(msg, UnpackRR(msg, off).value.1, n - 1); }
      var q := UnpackFields(QUESTION, msg, off, None);
      if q.Some? { ReadLengths(msg, q.value.1, n - 1); }
    }
  }

  // If something is not asked of the reader, something is missing in the end.
  lemma NotWhole(m: Message, sent: Message, msg: seq<byte>, at: nat, end: nat)
    requires UnpackFields(TOP, msg, 0, None) == Some((Top(m), at)) && SameMessage(sent, m) && !ReadWhole(m)
    ensures UnpackMessage(msg) != Some(ShownMessage(sent, end))
  {
    hide UnpackFields, UnpackRRs, UnpackQuestions, TopNumber, Truncated, Top;
    TopShown(m);
    TruncatedMod(m.bits);
    ReadLengths(msg, at, TopNumber(Top(m), 2));
    var r := UnpackQuestions(msg, at, TopNumber(Top(m), 2));
    if r.Some? && !Truncated(m.bits) { SectionLengths(msg, Top(m), r.value.0, r.value.1); }
  }

  lemma SectionLengths(msg: seq<byte>, top: seq<Part>, qs: seq<seq<Part>>, off: nat)
    ensures var r := UnpackSections(msg, top, qs, off);
            r.Some? ==>
              && r.value.questions == qs && |r.value.answer| == TopNumber(top, 3)
              && |r.value.authority| == TopNumber(top, 4) && |r.value.additional| == TopNumber(top, 5)
  {
    hide UnpackRRs, TopNumber;
    var a := UnpackRRs(msg, off, TopNumber(top, 3));
    ReadLengths(msg, off, TopNumber(top, 3));
    if a.Some? {
      var b := UnpackRRs(msg, a.value.1, TopNumber(top, 4));
      ReadLengths(msg, a.value.1, TopNumber(top, 4));
      if b.Some? { ReadLengths(msg, b.value.1, TopNumber(top, 5)); }
    }
  }

  // If everything is asked of the reader, the chains decide.
  lemma WholeRead(m: Message, msg: seq<byte>, at: nat, offs: seq<nat>, names: seq<seq<Meaning>>,
                  seen: seq<seq<seq<Part>>>)
    requires |offs| == 4 && |names| == 4 && |seen| == 4 && ReadWhole(m)
    requires UnpackFields(TOP, msg, 0, None) == Some((Top(m), at))
    requires UnpackQuestions(msg, at, |m.questions|) == IfShort(names[0], seen[0], offs[0])
    requires UnpackRRs(msg, offs[0], |m.answer|) == IfShort(names[1], seen[1], offs[1])
    requires UnpackRRs(msg, offs[1], |m.authority|) == IfShort(names[2], seen[2], offs[2])
    requires UnpackRRs(msg, offs[2], |m.additional|) == IfShort(names[3], seen[3], offs[3])
    ensures UnpackMessage(msg) ==
            if Short(names[0]) && Short(names[1]) && Short(names[2]) && Short(names[3]) then
              Some(Reading(Top(m), seen[0], seen[1], seen[2], seen[3], offs[3]))
            else None
  {
    hide UnpackFields, UnpackQuestions, UnpackRR, TopNumber, Truncated, Top, Short;
    TopShown(m);
    TruncatedMod(m.bits);
    if Truncated(m.bits) {
      assert m.answer == [] && m.authority == [] && m.additional == [];
    }
  }

  /**
   * The message as a whole, in every buffer that begins with the packed bytes,
   * the bytes alone among them: it is read back in full, with true lengths, and
   * the reader ends where the packer ended, if and only if every section has a
   * count of sixteen bits, the message is not marked as truncated while it holds
   * records, no name's chain of pointers is longer than ten, and every name is
   * read in full. Chains and names can be told from the texts and lengths. If
   * everything is asked of the reader, it refuses the message exactly for its
   * chains.
   */
  lemma MessageSurvives(m: Message, msg: seq<byte>, compress: bool, whole: seq<byte>) returns (sent: Message)
    requires MessageOk(m) && PackMessage(m, msg, compress).Some?
    requires var last := PackMessage(m, msg, compress).value; last.msg[..last.off] <= whole
    ensures SameMessage(sent, m)
    ensures var plan := PlanParts(MessageParts(m), compress, 0, map[]);
            && PackMessage(m, msg, compress).value.off == plan.end
            && (UnpackMessage(whole) == Some(ShownMessage(sent, plan.end)) <==>
                ReadWhole(m) && Short(plan.names) && RightParts(MessageParts(m), compress, 0, map[]))
            && (ReadWhole(m) ==> (UnpackMessage(whole) == None <==> !Short(plan.names)))
  {
    hide Told, PackParts, PackRRs, PackQuestions, PartsStand, UnpackRRs, UnpackQuestions, RecordOk, WellFormed;
    hide UnpackMessage, InRange, Top, Short, SameRecords, ReadWhole, ShownRecords, ShownQuestions, PartOk, Follows;
    hide UnpackFields, RecordsParts, QuestionsParts, PlanParts, RightParts, Sensible, QuestionsSeen, RecordsSeen;
    var init := State(msg, 0, map[]);
    NothingTold(msg);
    ToldSound(init, map[]);
    TopOk(m);
    var st0 := PackParts(init, Top(m), compress).value;
    var st1 := PackFront(m, msg, compress).value;
    var st2 := PackRRs(st1, m.answer, compress).value;
    var st3 := PackRRs(st2, m.authority, compress).value;
    var st4 := PackMessage(m, msg, compress).value;
    SectionsOk(m);
    QuestionsAdd(st0, m.questions, compress);
    RRsAdd(st1, m.answer, compress);
    RRsAdd(st2, m.authority, compress);
    RRsAdd(st3, m.additional, compress);
    var p0 := PlanParts(Top(m), compress, 0, map[]);
    PartsPacked(init, Top(m), compress, whole, map[]);
    SeenExactly(Top(m), compress, 0, map[]);
    var p1 := PlanParts(QuestionsParts(m.questions), compress, p0.end, p0.means);
    QuestionsPacked(st0, m.questions, compress, whole, p0.means);
    var p2 := PlanParts(RecordsParts(m.answer), compress, p1.end, p1.means);
    var answer := RRsPacked(st1, m.answer, compress, whole, p1.means);
    var p3 := PlanParts(RecordsParts(m.authority), compress, p2.end, p2.means);
    var authority := RRsPacked(st2, m.authority, compress, whole, p2.means);
    var p4 := PlanParts(RecordsParts(m.additional), compress, p3.end, p3.means);
    var additional := RRsPacked(st3, m.additional, compress, whole, p3.means);
    sent := m.(answer := answer, authority := authority, additional := additional);
    TopRead(m, whole, p0, compress);
    SameTop(sent, m);
    SectionsPlanned(m, compress, p0, p1, p2, p3, p4);
    if ReadWhole(m) {
      WholeRead(m, whole, st0.off, [st1.off, st2.off, st3.off, st4.off], [p1.names, p2.names, p3.names, p4.names],
                [QuestionsSeen(m.questions, p1.names), RecordsSeen(answer, p2.names), RecordsSeen(authority, p3.names),
                 RecordsSeen(additional, p4.names)]);
    } else {
      NotWhole(m, sent, whole, st0.off, st4.off);
    }
  }

  lemma SectionsOk(m: Message)
    requires MessageOk(m)
    ensures (forall rr <- m.answer :: RecordOk(rr) && WellFormed(rr.name))
    ensures (forall rr <- m.authority :: RecordOk(rr) && WellFormed(rr.name))
    ensures (forall rr <- m.additional :: RecordOk(rr) && WellFormed(rr.name))
  {
    hide RecordOk, WellFormed;
    NamesOfRRs(Records(m));
    assert forall rr <- m.answer :: rr in Records(m);
    assert forall rr <- m.authority :: rr in Records(m);
    assert forall rr <- m.additional :: rr in Records(m);
  }

  // The plan of the message is that of its sections, one behind the other.
  lemma SectionsPlanned(m: Message, compress: bool, p0: PartsPlan, p1: PartsPlan, p2: PartsPlan, p3: PartsPlan,
                        p4: PartsPlan)
    requires p0 == PlanParts(Top(m), compress, 0, map[])
    requires p1 == PlanParts(QuestionsParts(m.questions), compress, p0.end, p0.means)
    requires p2 == PlanParts(RecordsParts(m.answer), compress, p1.end, p1.means)
    requires p3 == PlanParts(RecordsParts(m.authority), compress, p2.end, p2.means)
    requires p4 == PlanParts(RecordsParts(m.additional), compress, p3.end, p3.means)
    ensures var plan := PlanParts(MessageParts(m), compress, 0, map[]);
            && plan.end == p4.end
            && (Short(plan.names) <==> Short(p1.names) && Short(p2.names) && Short(p3.names) && Short(p4.names))
    ensures RightParts(MessageParts(m), compress, 0, map[]) <==>
            && RightParts(QuestionsParts(m.questions), compress, p0.end, p0.means)
            && RightParts(RecordsParts(m.answer), compress, p1.end, p1.means)
            && RightParts(RecordsParts(m.authority), compress, p2.end, p2.means)
            && RightParts(RecordsParts(m.additional), compress, p3.end, p3.means)
  {
    hide PlanParts, Top, QuestionsParts, RecordsParts, RightParts, Short;
    TopPlanned(m, compress);
    var a, b := Top(m), QuestionsParts(m.questions);
    var c, d, e := RecordsParts(m.answer), RecordsParts(m.authority), RecordsParts(m.additional);
    PlanSplits(a, b, compress, 0, map[]);
    PlanSplits(a + b, c, compress, 0, map[]);
    PlanSplits(a + b + c, d, compress, 0, map[]);
    PlanSplits(a + b + c + d, e, compress, 0, map[]);
    RightSplits(a, b, compress, 0, map[]);
    RightSplits(a + b, c, compress, 0, map[]);
    RightSplits(a + b + c, d, compress, 0, map[]);
    RightSplits(a + b + c + d, e, compress, 0, map[]);
    ShortJoin(p0.names, p1.names);
    ShortJoin(p0.names + p1.names, p2.names);
    ShortJoin(p0.names + p1.names + p2.names, p3.names);
    ShortJoin(p0.names + p1.names + p2.names + p3.names, p4.names);
  }

  // The header holds no names.
  lemma TopPlanned(m: Message, compress: bool)
    ensures var plan := PlanParts(Top(m), compress, 0, map[]);
            Short(plan.names) && RightParts(Top(m), compress, 0, map[]) && AllSeen(Top(m), plan.names) == Top(m)
  {
    OctetsPlanned(Top(m), compress, 0, map[]);
    hide U16;
    var names := PlanParts(Top(m), compress, 0, map[]).names;
    assert AllSeen(Top(m), names) == Top(m);
  }

  lemma {:induction false} OctetsPlanned(parts: seq<Part>, compress: bool, off: nat, means: Means)
    requires forall p <- parts :: p.Octets?
    ensures Short(PlanParts(parts, compress, off, means).names) && RightParts(parts, compress, off, means)
    decreases parts
  {
    if parts != [] {
      assert parts[0] in parts && forall p <- parts[1..] :: p in parts;
      OctetsPlanned(parts[1..], compress, off + |parts[0].bytes|, means);
    }
  }

  // The header is read as it is.
  lemma TopRead(m: Message, whole: seq<byte>, plan: PartsPlan, compress: bool)
    requires plan == PlanParts(Top(m), compress, 0, map[]) && PartsStand(whole, 0, Top(m), plan.names, plan.end)
    ensures UnpackFields(TOP, whole, 0, None) == Some((Top(m), plan.end))
  {
    hide PartsStand, UnpackFields, Top, PlanParts, RightParts;
    TopOk(m);
    PartsRead(TOP, Top(m), whole, 0, plan.names, plan.end, None);
    TopPlanned(m, compress);
  }
}
