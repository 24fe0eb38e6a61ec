/**
 * What compressed names mean (packDomainName with a shared table in
 * miekg/dns, msg.go).
 *
 * The packer cuts its table keys from a buffer that it unescapes in place, so a
 * key is neither the text nor the labels of a name, and a name may be given a
 * pointer to another one. What every name is read as is said here, whatever it
 * holds, from the texts and offsets alone; and so exactly when it is itself.
 */
module DnsMeaning {
  import opened Common
  import opened DnsName
  import opened DnsPack
  import opened DnsText
  import opened DnsCompression

  // What a name is read as, and through how many pointers.
  datatype Meaning = Meaning(labels: seq<Label>, depth: nat)

  // What stands behind every key of the table.
  type Means = map<seq<byte>, Meaning>

  // What a name will be read as, where it will end, and what is learnt from it.
  datatype Plan = Plan(name: Meaning, end: nat, means: Means)

  /**
   * What the name in the buffer is read as, from the label that began at
   * `begin`, when that label goes to `off`: its own labels up to the first key
   * that is known, and what that key means. Below 2^14 every new key is learnt.
   */
  function Read(bs: seq<byte>, ls: nat, i: nat, begin: nat, off: nat, means: Means): Plan
    requires begin <= i <= ls <= |bs| && (i < ls ==> bs[ls - 1] == DOT)
    decreases ls - i
  {
    if i == ls then Plan(Meaning([], 0), off + 1, means)
    else if bs[i] == BACKSLASH then
      var (next, n) := Unescaped(bs, i, ls);
      Read(next, n, i + 1, begin, off, means)
    else if bs[i] != DOT then Read(bs, ls, i + 1, begin, off, means)
    else
      var l, key := bs[begin..i], bs[begin..];
      if key != [DOT] && key in means then
        Plan(Meaning(means[key].labels, means[key].depth + 1), off + 2, means)
      else Behind(l, key, off, Read(bs, ls, i + 1, i + 1, off + 1 + |l|, means))
  }

  // A label in front of a name.
  function Behind(l: Label, key: seq<byte>, off: nat, rest: Plan): Plan {
    var name := Meaning([l] + rest.name.labels, rest.name.depth);
    Plan(name, rest.end, if key != [DOT] && off < MAX_OFFSET then rest.means[key := name] else rest.means)
  }

  // ---------------------------------------------------------------- the table

  ghost predicate KnownAs(m: seq<byte>, x: Meaning, p: nat, hops: seq<nat>) {
    Denotes(m, p, x.labels, hops) && Backward(m, hops) && |hops| == x.depth < |x.labels|
  }

  // The bytes at p have this meaning, through fewer pointers than there are labels.
  ghost predicate Leads(m: seq<byte>, x: Meaning, p: nat) {
    exists hops :: KnownAs(m, x, p, hops)
  }

  ghost predicate MeansBy(m: seq<byte>, at: nat, x: Meaning, end: nat, hops: seq<nat>) {
    Stands(m, at, x.labels, hops, end) && |hops| == x.depth
  }

  // A name stands at an offset and ends where it should.
  ghost predicate Meant(m: seq<byte>, at: nat, x: Meaning, end: nat) {
    exists hops :: MeansBy(m, at, x, end, hops)
  }

  // Of the keys of n bytes or fewer, the table holds those with a meaning, and
  // leads to it.
  ghost predicate Agree(m: seq<byte>, table: Table, means: Means, n: nat) {
    forall k :: |k| <= n ==> (k in table <==> k in means) && (k in table ==> Leads(m, means[k], table[k]))
  }

  ghost predicate AgreeAll(m: seq<byte>, table: Table, means: Means) {
    table.Keys == means.Keys && forall k <- table :: Leads(m, means[k], table[k])
  }

  // Both have learnt the same keys, and the new ones lead to their meaning.
  ghost predicate Grown(m: seq<byte>, table: Table, means: Means, table': Table, means': Means) {
    && (forall k <- table :: k in table' && table'[k] == table[k])
    && (forall k <- means :: k in means' && means'[k] == means[k])
    && table'.Keys - table.Keys == means'.Keys - means.Keys
    && (forall k <- table' :: k !in table ==> k in means' && Leads(m, means'[k], table'[k]))
  }

  lemma LeadsInLonger(m: seq<byte>, longer: seq<byte>, x: Meaning, p: nat)
    requires m <= longer && Leads(m, x, p)
    ensures Leads(longer, x, p)
  {
    var hops :| KnownAs(m, x, p, hops);
    DenotesInLonger(m, longer, p, x.labels, hops);
    BackwardInLonger(m, longer, hops);
    assert KnownAs(longer, x, p, hops);
  }

  lemma MeantInLonger(m: seq<byte>, longer: seq<byte>, at: nat, x: Meaning, end: nat)
    requires m <= longer && Meant(m, at, x, end)
    ensures Meant(longer, at, x, end)
  {
    var hops :| MeansBy(m, at, x, end, hops);
    StandsInLonger(m, longer, at, x.labels, hops, end);
    assert MeansBy(longer, at, x, end, hops);
  }

  lemma GrownAgrees(m: seq<byte>, longer: seq<byte>, table: Table, means: Means, table': Table, means': Means)
    requires m <= longer && AgreeAll(m, table, means) && Grown(longer, table, means, table', means')
    ensures AgreeAll(longer, table', means')
  {
    hide Leads;
    forall k <- table' ensures k in means' && Leads(longer, means'[k], table'[k]) {
      if k in table { LeadsInLonger(m, longer, means[k], table[k]); }
    }
    forall k <- means' ensures k in table' {
      if k !in means { assert k in means'.Keys - means.Keys; }
    }
  }

  // ------------------------------------------------------------------ one name

  predicate NoEmptyLabels(labels: seq<Label>) {
    forall l <- labels :: l != []
  }

  lemma FirstLabel(l: Label, rest: seq<Label>)
    requires NoEmptyLabels([l] + rest)
    ensures l != [] && NoEmptyLabels(rest)
  {
    assert l in [l] + rest && forall k <- rest :: k in [l] + rest;
  }

  // What the loop leaves behind, from the label at `begin` on.
  ghost predicate Reads(r: Result, plan: Plan, msg: seq<byte>, off: nat, table: Table, means: Means)
    requires off <= |msg|
  {
    && r.Packed? && |r.msg| == |msg| && off < r.end <= |msg| && r.end == plan.end
    && r.msg[..off] == msg[..off]
    && Meant(r.msg[..r.end], off, plan.name, r.end)
    && Grown(r.msg[..r.end], table, means, r.table, plan.means)
  }

  // A dot that lets the loop go on, or ends it with a pointer.
  lemma DotTurn(bs: seq<byte>, i: nat, begin: nat, escapedDot: bool, msg: seq<byte>, off: nat, table: Table, n: nat)
    requires begin < i < |bs| && off <= |msg| && InRange(table)
    requires var t := AtDot(bs, i, begin, escapedDot, msg, off, table, n, true); t.Ends? ==> t.r.Packed?
    ensures i - begin <= MAX_LABEL && off + 1 + i - begin <= |msg|
    ensures var t := AtDot(bs, i, begin, escapedDot, msg, off, table, n, true);
            var key, counted := bs[begin..], [(i - begin) as byte] + bs[begin..i];
            if key != [DOT] && key in table then
              && table[key] < MAX_OFFSET
              && t == Ends(Packed(Put(Put(msg, off, counted), off, PointerBytes(table[key])), table, off + 2, n))
            else
              t == Goes(Put(msg, off, counted), off + 1 + i - begin,
                        if key != [DOT] && off < MAX_OFFSET then table[key := off] else table)
  {
    hide Put;
  }

  lemma HitReads(r: Result, key: seq<byte>, msg: seq<byte>, counted: seq<byte>, off: nat, table: Table, means: Means,
                 n: nat)
    requires off + |counted| <= |msg| && |counted| >= 2
    requires key in table && key in means && table[key] < MAX_OFFSET && Leads(msg[..off], means[key], table[key])
    requires r == Packed(Put(Put(msg, off, counted), off, PointerBytes(table[key])), table, off + 2, n)
    ensures Reads(r, Plan(Meaning(means[key].labels, means[key].depth + 1), off + 2, means), msg, off, table, means)
  {
    var m, p := msg[..off], table[key];
    PointsTo(m, means[key], p);
    PutKeepsPrefix(msg, off, counted);
    PutKeepsPrefix(Put(msg, off, counted), off, PointerBytes(p));
    assert r.msg[..off + 2] == m + PointerBytes(p);
    assert r.msg[..off] == r.msg[..off + 2][..off];
  }

  lemma PointsTo(m: seq<byte>, x: Meaning, p: nat)
    requires p < MAX_OFFSET && Leads(m, x, p)
    ensures Meant(m + PointerBytes(p), |m|, Meaning(x.labels, x.depth + 1), |m| + 2)
  {
    var hops :| KnownAs(m, x, p, hops);
    var longer := m + PointerBytes(p);
    DenotesInLonger(m, longer, p, x.labels, hops);
    BackwardInLonger(m, longer, hops);
    assert ([|m|] + hops)[1..] == hops;
    assert longer[|m|] == 192 + p / 256 && longer[|m| + 1] == p % 256;
    assert PointerTarget(longer, |m|) == p;
    assert MeansBy(longer, |m|, Meaning(x.labels, x.depth + 1), |m| + 2, [|m|] + hops);
  }

  // Behind a label only shorter keys are looked up.
  lemma MissAgrees(msg: seq<byte>, off: nat, counted: seq<byte>, table: Table, table': Table, means: Means,
                   key: seq<byte>, n: nat)
    requires off + |counted| <= |msg| && n < |key|
    requires table' == table || table' == table[key := off]
    requires Agree(msg[..off], table, means, |key|)
    ensures Agree(Put(msg, off, counted)[..off + |counted|], table', means, n)
  {
    hide Leads;
    PutKeepsPrefix(msg, off, counted);
    var m := msg[..off] + counted;
    forall k | |k| <= n
      ensures (k in table' <==> k in means) && (k in table' ==> Leads(m, means[k], table'[k]))
    {
      if k in table { LeadsInLonger(msg[..off], m, means[k], table[k]); }
    }
  }

  lemma MissStands(r: Result, l: Label, rest: Meaning, msg: seq<byte>, off: nat)
    requires 1 <= |l| <= MAX_LABEL && off + 1 + |l| <= |msg| && r.Packed? && off + 1 + |l| < r.end <= |r.msg| == |msg|
    requires var at := off + 1 + |l|;
             && r.msg[..at] == Put(msg, off, [|l| as byte] + l)[..at]
             && Meant(r.msg[..r.end], at, rest, r.end)
    ensures r.msg[..off] == msg[..off]
    ensures var name := Meaning([l] + rest.labels, rest.depth);
            Meant(r.msg[..r.end], off, name, r.end) && Leads(r.msg[..r.end], name, off)
  {
    var counted := [|l| as byte] + l;
    var m := r.msg[..r.end];
    PutKeepsPrefix(msg, off, counted);
    var written := msg[..off] + counted;
    assert m[..off + 1 + |l|] == r.msg[..off + 1 + |l|] == written;
    assert m[off] == written[off] && m[off + 1..off + 1 + |l|] == written[off + 1..];
    var hops :| MeansBy(m, off + 1 + |l|, rest, r.end, hops);
    LabelStands(m, off, l, rest.labels, hops, r.end);
    assert r.msg[..off] == m[..off + 1 + |l|][..off] == msg[..off];
    var name := Meaning([l] + rest.labels, rest.depth);
    assert MeansBy(m, off, name, r.end, hops) && KnownAs(m, name, off, hops);
  }

  // The key of the label itself comes on top of what is learnt behind it.
  lemma MissGrows(m: seq<byte>, table: Table, means: Means, table': Table, learnt: Means, key: seq<byte>, off: nat,
                  name: Meaning)
    requires key !in table && key !in means && Leads(m, name, off)
    requires Grown(m, table[key := off], means, table', learnt)
    ensures Grown(m, table, means, table', learnt[key := name])
  {
    hide Leads;
    assert key !in table'.Keys - table[key := off].Keys;
    assert key !in learnt;
    forall k
      ensures k in table'.Keys - table.Keys <==> k in learnt[key := name].Keys - means.Keys
    {
      if k != key {
        assert k in table'.Keys - table.Keys <==> k in table'.Keys - table[key := off].Keys;
        assert k in learnt[key := name].Keys - means.Keys <==> k in learnt.Keys - means.Keys;
      }
    }
    assert table'.Keys - table.Keys == learnt[key := name].Keys - means.Keys;
  }

  // The packer's loop, on any buffer of labels that are not empty.
  lemma {:induction false} LoopReads(bs: seq<byte>, ls: nat, i: nat, begin: nat, escapedDot: bool,
                                     msg: seq<byte>, off: nat, table: Table, means: Means, n: nat)
    requires begin <= i <= ls <= |bs| && |bs| > 1 && off <= |msg| && (i < ls ==> bs[ls - 1] == DOT) && InRange(table)
    requires NoEmptyLabels(Cut(Tokens(bs[i..ls]), bs[begin..i]))
    requires Agree(msg[..off], table, means, |bs| - begin)
    requires PackLoop(bs, ls, i, begin, escapedDot, msg, off, table, n, true).Packed?
    ensures Reads(PackLoop(bs, ls, i, begin, escapedDot, msg, off, table, n, true),
                  Read(bs, ls, i, begin, off, means), msg, off, table, means)
    decreases ls - i
  {
    hide Unescaped, Put, Tokens, Cut, InRange, AtDot, NoEmptyLabels, Agree, Reads, Behind;
    var r := PackLoop(bs, ls, i, begin, escapedDot, msg, off, table, n, true);
    if i == ls {
      EndReads(r, bs, msg, off, table, means, n);
    } else if bs[i] == BACKSLASH {
      CutAtEscape(bs, ls, i, begin);
      var (next, m) := Unescaped(bs, i, ls);
      LoopReads(next, m, i + 1, begin, next[i] == DOT, msg, off, table, means, n);
    } else if bs[i] != DOT {
      CutAtByte(bs, ls, i, begin);
      LoopReads(bs, ls, i + 1, begin, false, msg, off, table, means, n);
    } else {
      CutAtDot(bs, ls, i, begin);
      FirstLabel(bs[begin..i], Cut(Tokens(bs[i + 1..ls]), bs[i + 1..i + 1]));
      DotTurn(bs, i, begin, escapedDot, msg, off, table, n);
      var l, key := bs[begin..i], bs[begin..];
      var counted := [|l| as byte] + l;
      AgreeAt(msg[..off], table, means, |bs| - begin, key);
      if key != [DOT] && key in table {
        HitReads(r, key, msg, counted, off, table, means, n);
      } else {
        var table' := if key != [DOT] && off < MAX_OFFSET then table[key := off] else table;
        MissAgrees(msg, off, counted, table, table', means, key, |bs| - i - 1);
        LoopReads(bs, ls, i + 1, i + 1, false, Put(msg, off, counted), off + 1 + |l|, table', means, n + 1);
        MissReads(r, l, Read(bs, ls, i + 1, i + 1, off + 1 + |l|, means), key, msg, off, table, means);
      }
    }
  }

  lemma AgreeAt(m: seq<byte>, table: Table, means: Means, n: nat, key: seq<byte>)
    requires Agree(m, table, means, n) && |key| <= n
    ensures key in table <==> key in means
    ensures key in table ==> Leads(m, means[key], table[key])
  {
  }

  lemma EndReads(r: Result, bs: seq<byte>, msg: seq<byte>, off: nat, table: Table, means: Means, n: nat)
    requires |bs| > 1 && off <= |msg| && r == Close(bs, msg, off, table, n) && r.Packed?
    ensures Reads(r, Plan(Meaning([], 0), off + 1, means), msg, off, table, means)
  {
    PutKeepsPrefix(msg, off, [0]);
    assert r.msg[..off + 1] == msg[..off] + [0];
    assert MeansBy(r.msg[..off + 1], off, Meaning([], 0), off + 1, []);
  }

  lemma MissReads(r: Result, l: Label, rest: Plan, key: seq<byte>, msg: seq<byte>, off: nat, table: Table, means: Means)
    requires 1 <= |l| <= MAX_LABEL && off + 1 + |l| <= |msg| && (key != [DOT] ==> key !in table && key !in means)
    requires Reads(r, rest, Put(msg, off, [|l| as byte] + l), off + 1 + |l|,
                   if key != [DOT] && off < MAX_OFFSET then table[key := off] else table, means)
    ensures Reads(r, Behind(l, key, off, rest), msg, off, table, means)
  {
    hide Put, Grown, Meant, Leads;
    MissStands(r, l, rest.name, msg, off);
    if key != [DOT] && off < MAX_OFFSET {
      MissGrows(r.msg[..r.end], table, means, r.table, rest.means, key, off, Behind(l, key, off, rest).name);
    }
  }

  // --------------------------------------------------------- when it is right

  // The first known key of the name means what is left of it; or there is none,
  // and no label is left open.
  predicate SharedRight(bs: seq<byte>, ls: nat, i: nat, begin: nat, means: Means)
    requires begin <= i <= ls <= |bs| && (i < ls ==> bs[ls - 1] == DOT)
    decreases ls - i
  {
    if i == ls then begin == ls
    else if bs[i] == BACKSLASH then
      var (next, n) := Unescaped(bs, i, ls);
      SharedRight(next, n, i + 1, begin, means)
    else if bs[i] != DOT then SharedRight(bs, ls, i + 1, begin, means)
    else
      var key := bs[begin..];
      if key != [DOT] && key in means then means[key].labels == Rest(Tokens(bs[i..ls]), bs[begin..i])
      else SharedRight(bs, ls, i + 1, i + 1, means)
  }

  lemma {:induction false} ReadExactly(bs: seq<byte>, ls: nat, i: nat, begin: nat, off: nat, means: Means)
    requires begin <= i <= ls <= |bs| && (i < ls ==> bs[ls - 1] == DOT)
    ensures Read(bs, ls, i, begin, off, means).name.labels == Rest(Tokens(bs[i..ls]), bs[begin..i]) <==>
            SharedRight(bs, ls, i, begin, means)
    decreases ls - i
  {
    hide Unescaped, Tokens, Rest;
    if i == ls {
      RestAtEnd(bs, ls, begin);
    } else if bs[i] == BACKSLASH {
      RestAtEscape(bs, ls, i, begin);
      var (next, n) := Unescaped(bs, i, ls);
      ReadExactly(next, n, i + 1, begin, off, means);
    } else if bs[i] != DOT {
      RestAtByte(bs, ls, i, begin);
      ReadExactly(bs, ls, i + 1, begin, off, means);
    } else {
      RestAtDot(bs, ls, i, begin);
      var l, rest := bs[begin..i], Rest(Tokens(bs[i + 1..ls]), bs[i + 1..i + 1]);
      ReadExactly(bs, ls, i + 1, i + 1, off + 1 + |l|, means);
      SameTail(l, Read(bs, ls, i + 1, i + 1, off + 1 + |l|, means).name.labels, rest);
    }
  }

  lemma SameTail(l: Label, a: seq<Label>, b: seq<Label>)
    ensures [l] + a == [l] + b <==> a == b
  {
    assert ([l] + a)[1..] == a && ([l] + b)[1..] == b;
  }

  // ---------------------------------------------------------- a whole message

  predicate Proper(item: Item) {
    item.Name? ==> WellFormed(item.text)
  }

  // A name with a label, which ends in a dot.
  predicate Dotted(text: seq<byte>) { |text| > 1 && text[|text| - 1] == DOT }

  // One name. Without compression it is written label by label.
  function PlanName(text: seq<byte>, compress: bool, off: nat, means: Means): Plan {
    if compress && Dotted(text) then Read(text, |text|, 0, 0, off, means)
    else Plan(Meaning(Named(text), 0), off + WireLength(Named(text)), means)
  }

  function PlanItem(item: Item, off: nat, means: Means): Plan {
    match item
    case Raw(bytes) => Plan(Meaning([], 0), off + |bytes|, means)
    case Name(text, compress) => PlanName(text, compress, off, means)
  }

  // The last of the items, from the texts and lengths alone.
  function Planned(items: seq<Item>): Plan {
    if items == [] then Plan(Meaning([], 0), 0, map[])
    else
      var front := Planned(items[..|items| - 1]);
      PlanItem(items[|items| - 1], front.end, front.means)
  }

  // A name is read in full: the first of its keys that is known means what is
  // left of it, or no key is known and its last dot is not escaped.
  predicate NameRight(text: seq<byte>, compress: bool, means: Means) {
    if compress && Dotted(text) then SharedRight(text, |text|, 0, 0, means) else !LastEscaped(text)
  }

  lemma NameRightExactly(text: seq<byte>, compress: bool, off: nat, means: Means)
    requires WellFormed(text)
    ensures PlanName(text, compress, off, means).name.labels == Said(text) <==> NameRight(text, compress, means)
  {
    if compress && Dotted(text) {
      assert text[0..|text|] == text && text[0..0] == [];
      ReadExactly(text, |text|, 0, 0, off, means);
    } else {
      LastLostExactly(text);
    }
  }

  // No empty labels, and no more pointers than labels.
  predicate SensibleName(x: Meaning) {
    x.depth <= |x.labels| && NoEmptyLabels(x.labels)
  }

  ghost predicate Sensible(means: Means) {
    forall k <- means :: SensibleName(means[k]) && means[k].depth < |means[k].labels|
  }

  lemma {:induction false} ReadSensible(bs: seq<byte>, ls: nat, i: nat, begin: nat, off: nat, means: Means)
    requires begin <= i <= ls <= |bs| && (i < ls ==> bs[ls - 1] == DOT) && Sensible(means)
    requires NoEmptyLabels(Cut(Tokens(bs[i..ls]), bs[begin..i]))
    ensures var plan := Read(bs, ls, i, begin, off, means); SensibleName(plan.name) && Sensible(plan.means)
    decreases ls - i
  {
    hide Unescaped, Tokens, Cut;
    if i == ls {
    } else if bs[i] == BACKSLASH {
      CutAtEscape(bs, ls, i, begin);
      var (next, n) := Unescaped(bs, i, ls);
      ReadSensible(next, n, i + 1, begin, off, means);
    } else if bs[i] != DOT {
      CutAtByte(bs, ls, i, begin);
      ReadSensible(bs, ls, i + 1, begin, off, means);
    } else {
      CutAtDot(bs, ls, i, begin);
      FirstLabel(bs[begin..i], Cut(Tokens(bs[i + 1..ls]), bs[i + 1..i + 1]));
      var key := bs[begin..];
      if !(key != [DOT] && key in means) { ReadSensible(bs, ls, i + 1, i + 1, off + 1 + i - begin, means); }
    }
  }

  lemma PlanSensible(text: seq<byte>, compress: bool, off: nat, means: Means)
    requires WellFormed(text) && Sensible(means)
    ensures var plan := PlanName(text, compress, off, means); SensibleName(plan.name) && Sensible(plan.means)
  {
    hide Tokens, Cut, Read, Sensible;
    if compress && Dotted(text) {
      assert text[0..|text|] == text && text[0..0] == [];
      assert NoEmptyLabels(Parse(text));
      ReadSensible(text, |text|, 0, 0, off, means);
    }
  }

  // The text of a name is its own if and only if the name is read in full.
  lemma NameShownExactly(text: seq<byte>, compress: bool, off: nat, means: Means)
    requires WellFormed(text) && Sensible(means)
    ensures Display(PlanName(text, compress, off, means).name.labels) == Display(Said(text)) <==>
            NameRight(text, compress, means)
  {
    hide PlanName, Said, NameRight, WellFormed, Sensible, Display;
    PlanSensible(text, compress, off, means);
    NameRightExactly(text, compress, off, means);
    SaidNotEmpty(text);
    DisplayTells(PlanName(text, compress, off, means).name.labels, Said(text));
  }

  // One more name, whatever it holds: it stands as planned, and the table stays
  // right about what every key means.
  lemma NameReads(text: seq<byte>, compress: bool, msg: seq<byte>, off: nat, table: Table, means: Means)
    requires WellFormed(text) && off <= |msg| && InRange(table) && AgreeAll(msg[..off], table, means)
    requires Pack(text, msg, off, table, compress).Packed?
    ensures var r, plan := Pack(text, msg, off, table, compress), PlanName(text, compress, off, means);
            && off < r.end == plan.end && r.msg[..off] == msg[..off]
            && Meant(r.msg[..r.end], off, plan.name, r.end)
            && AgreeAll(r.msg[..r.end], r.table, plan.means)
  {
    hide PackLoop, Leads, Denotes, Put, InRange, Tokens, Cut, Read, Meant;
    var r := Pack(text, msg, off, table, compress);
    if text == [DOT] {
      RootFits(msg, off, table, compress);
      RootPacks(msg, off, table, compress);
      RootStands(msg, off);
      StandsPlainly(r.msg[..r.end], off, [], r.end);
      GrownAgrees(msg[..off], r.msg[..r.end], table, means, r.table, means);
    } else if compress {
      assert text[0..|text|] == text && text[0..0] == [];
      AgreeUpTo(msg[..off], table, means, |text|);
      LoopReads(text, |text|, 0, 0, false, msg, off, table, means, 0);
      GrownAgrees(msg[..off], r.msg[..r.end], table, means, r.table, PlanName(text, compress, off, means).means);
    } else {
      PackWrites(text, msg, off, table);
      WireStands(msg, off, Parse(text));
      StandsPlainly(r.msg[..r.end], off, Parse(text), r.end);
      GrownAgrees(msg[..off], r.msg[..r.end], table, means, r.table, means);
    }
  }

  lemma StandsPlainly(m: seq<byte>, at: nat, labels: seq<Label>, end: nat)
    requires Stands(m, at, labels, [], end)
    ensures Meant(m, at, Meaning(labels, 0), end)
  {
    assert MeansBy(m, at, Meaning(labels, 0), end, []);
  }

  lemma AgreeUpTo(m: seq<byte>, table: Table, means: Means, n: nat)
    requires AgreeAll(m, table, means)
    ensures Agree(m, table, means, n)
  {
    hide Leads;
    assert forall k :: k in table <==> k in table.Keys;
    assert forall k :: k in means <==> k in means.Keys;
  }

  // The table agrees with what was learnt.
  ghost predicate Told(st: State, means: Means) {
    Sound(st) && AgreeAll(st.msg[..st.off], st.table, means)
  }

  lemma ItemTells(st: State, item: Item, means: Means)
    requires Told(st, means) && Proper(item) && PackItem(st, item).Some?
    ensures var st', plan := PackItem(st, item).value, PlanItem(item, st.off, means);
            && Told(st', plan.means) && st'.off == plan.end
            && st.off <= st'.off && st.msg[..st.off] <= st'.msg[..st'.off]
            && (item.Name? ==> Meant(st'.msg[..st'.off], st.off, plan.name, st'.off))
  {
    hide Leads, Pack, InRange, WellFormed, PlanName, Meant;
    var st' := PackItem(st, item).value;
    match item
    case Raw(bytes) =>
      hide Put;
      PutKeepsPrefix(st.msg, st.off, bytes);
      GrownAgrees(st.msg[..st.off], st'.msg[..st'.off], st.table, means, st'.table, means);
    case Name(text, compress) =>
      NameReads(text, compress, st.msg, st.off, st.table, means);
  }

  lemma {:induction false} AllTold(items: seq<Item>, msg: seq<byte>)
    requires (forall item <- items :: Proper(item)) && PackAll(items, msg).Some?
    ensures Told(PackAll(items, msg).value, Planned(items).means) && PackAll(items, msg).value.off == Planned(items).end
  {
    if items == [] {
      assert AgreeAll(msg[..0], map[], map[]);
    } else {
      var front := items[..|items| - 1];
      AllTold(front, msg);
      hide Told, PackItem, PlanItem;
      ItemTells(PackAll(front, msg).value, items[|items| - 1], Planned(front).means);
    }
  }

  lemma {:induction false} EarlierStays(items: seq<Item>, msg: seq<byte>, k: nat)
    requires (forall item <- items :: Proper(item)) && k <= |items| && PackAll(items, msg).Some?
    ensures PackAll(items[..k], msg).Some?
    ensures var st, last := PackAll(items[..k], msg).value, PackAll(items, msg).value;
            st.off <= last.off && st.msg[..st.off] <= last.msg[..last.off]
    decreases |items|
  {
    if k == |items| {
      assert items[..k] == items;
    } else {
      var front := items[..|items| - 1];
      EarlierStays(front, msg, k);
      assert front[..k] == items[..k];
      AllTold(front, msg);
      hide Told, PackItem, PlanItem;
      ItemTells(PackAll(front, msg).value, items[|items| - 1], Planned(front).means);
    }
  }

  // A name that stands is read if its chain is short, and refused otherwise.
  lemma MeantRead(m: seq<byte>, at: nat, x: Meaning, end: nat)
    requires Meant(m, at, x, end)
    ensures at < |m| && at < end && (forall l <- x.labels :: l != [])
    ensures Unpack(m, at) == if x.depth <= MAX_POINTERS then Unpacked(Display(x.labels), end)
                             else Failed(TooManyPointers)
  {
    var hops :| MeansBy(m, at, x, end, hops);
    UnpackDenoted(m, at, x.labels, hops);
    DenotedNotEmpty(m, at, x.labels, hops);
    EndAhead(m, at, x.labels, hops);
  }

  lemma {:induction false} EndAhead(m: seq<byte>, at: nat, labels: seq<Label>, hops: seq<nat>)
    requires Denotes(m, at, labels, hops)
    ensures at < |m| && at < EndOf(m, at)
    decreases |labels|
  {
    if 0 < m[at] <= MAX_LABEL { EndAhead(m, at + 1 + m[at], labels[1..], hops); }
  }

  /**
   * Every name of a message, with any escapes, compressed or not: what it is read
   * as, through how many pointers and where it ends can be told from the texts
   * and lengths before anything is packed. It is refused if there are more than
   * ten pointers; and it comes back in full if and only if there are at most ten,
   * and the first of its keys that is known means what is left of it or, if none
   * is known, its last dot is not escaped.
   */
  lemma NamesRead(items: seq<Item>, msg: seq<byte>, k: nat)
    requires (forall item <- items :: Proper(item)) && k < |items| && items[k].Name?
    requires PackAll(items, msg).Some?
    ensures PackAll(items[..k], msg).Some? && PackAll(items[..k + 1], msg).Some?
    ensures var front, plan, whole := Planned(items[..k]), Planned(items[..k + 1]), PackAll(items, msg).value.msg;
            var text, compress := items[k].text, items[k].compress;
            && plan == PlanName(text, compress, front.end, front.means)
            && PackAll(items[..k], msg).value.off == front.end && PackAll(items[..k + 1], msg).value.off == plan.end
            && Meant(whole, front.end, plan.name, plan.end)
            && Unpack(whole, front.end) ==
               (if plan.name.depth <= MAX_POINTERS then Unpacked(Display(plan.name.labels), plan.end)
                else Failed(TooManyPointers))
            && (Unpack(whole, front.end) == Unpacked(Display(Said(text)), plan.end) <==>
                plan.name.depth <= MAX_POINTERS && NameRight(text, compress, front.means))
  {
    hide Pack, WellFormed, Unpack, PlanName, NameRight, Display, Leads, Meant, Said;
    EarlierStays(items, msg, k);
    EarlierStays(items, msg, k + 1);
    var front, upto := items[..k], items[..k + 1];
    assert upto[..|upto| - 1] == front && upto[|upto| - 1] == items[k];
    var st, st', last := PackAll(front, msg).value, PackAll(upto, msg).value, PackAll(items, msg).value;
    AllTold(front, msg);
    assert Proper(items[k]);
    var text, compress, means := items[k].text, items[k].compress, Planned(front).means;
    ItemTells(st, items[k], means);
    var plan := PlanName(text, compress, st.off, means);
    assert st'.msg[..st'.off] <= last.msg[..last.off] <= last.msg;
    MeantInLonger(st'.msg[..st'.off], last.msg, st.off, plan.name, st'.off);
    MeantRead(last.msg, st.off, plan.name, plan.end);
    NameRightExactly(text, compress, st.off, means);
    SaidNotEmpty(text);
    DisplayTells(plan.name.labels, Said(text));
  }

  lemma {:induction false} DenotedNotEmpty(m: seq<byte>, at: nat, labels: seq<Label>, hops: seq<nat>)
    requires Denotes(m, at, labels, hops)
    ensures forall l <- labels :: l != []
    decreases |hops|, |labels|
  {
    var c := m[at];
    if c == 0 {
    } else if c <= MAX_LABEL {
      DenotedNotEmpty(m, at + 1 + c, labels[1..], hops);
      assert labels == [labels[0]] + labels[1..];
    } else {
      DenotedNotEmpty(m, PointerTarget(m, at), labels, hops[1..]);
    }
  }

  lemma SaidNotEmpty(text: seq<byte>)
    requires WellFormed(text)
    ensures forall l <- Said(text) :: l != []
  {
    LastLostExactly(text);
  }

  // Two names have the same text only if they are the same.
  lemma DisplayTells(a: seq<Label>, b: seq<Label>)
    requires (forall l <- a :: l != []) && (forall l <- b :: l != [])
    ensures Display(a) == Display(b) <==> a == b
  {
    ParseOfText(a);
    ParseOfText(b);
    assert (a != [] ==> a[0] in a) && (b != [] ==> b[0] in b);
    hide EscapeAll, Parse, Text;
    if a != [] { TextEndsInDot(a); }
    if b != [] { TextEndsInDot(b); }
  }

  // The text b.a\.
  const OPEN_LAST: seq<byte> := [98, 46, 97, 92, 46]

  // The first name of a message has no pointers.
  lemma {:induction false} FirstRead(bs: seq<byte>, ls: nat, i: nat, begin: nat, off: nat)
    requires begin <= i <= ls <= |bs| && (i < ls ==> bs[ls - 1] == DOT)
    ensures Read(bs, ls, i, begin, off, map[]).name == Meaning(Cut(Tokens(bs[i..ls]), bs[begin..i]), 0)
    decreases ls - i
  {
    hide Unescaped, Tokens, Cut;
    if i == ls {
      CutAtEnd(bs, ls, begin);
    } else if bs[i] == BACKSLASH {
      CutAtEscape(bs, ls, i, begin);
      var (next, n) := Unescaped(bs, i, ls);
      FirstRead(next, n, i + 1, begin, off);
    } else if bs[i] != DOT {
      CutAtByte(bs, ls, i, begin);
      FirstRead(bs, ls, i + 1, begin, off);
    } else {
      CutAtDot(bs, ls, i, begin);
      FirstRead(bs, ls, i + 1, i + 1, off + 1 + i - begin);
    }
  }

  // It is accepted, compressed or not, and comes back without its last label.
  lemma OpenLastLost(msg: seq<byte>, compress: bool)
    requires |msg| >= 3
    ensures WellFormed(OPEN_LAST) && LastEscaped(OPEN_LAST) && Said(OPEN_LAST) == [[98], [97, 46]]
    ensures var r := PackAll([Name(OPEN_LAST, compress)], msg);
            r.Some? && Unpack(r.value.msg, 0) == Unpacked([98, 46], 3)
  {
    OpenLastSays();
    OpenLastPacks(msg, compress);
    hide Pack, Unpack, PlanName, NameRight, Said, LastEscaped, Meant, Display, WellFormed;
    var items := [Name(OPEN_LAST, compress)];
    assert items[..0] == [] && items[..1] == items && PackAll([], msg) == Some(State(msg, 0, map[]));
    NamesRead(items, msg, 0);
    OpenLastPlanned(compress);
  }

  lemma OpenLastPlanned(compress: bool)
    ensures PlanName(OPEN_LAST, compress, 0, map[]).name == Meaning([[98]], 0) && Display([[98]]) == [98, 46]
  {
    OpenLastSays();
    hide Tokens, Cut;
    assert OPEN_LAST[0..|OPEN_LAST|] == OPEN_LAST && OPEN_LAST[0..0] == [];
    FirstRead(OPEN_LAST, |OPEN_LAST|, 0, 0, 0);
    var one: seq<Label> := [[98]];
    assert one[1..] == [] && Text([]) == [] && EscapeAll([98]) == [98];
  }

  lemma OpenLastSays()
    ensures Named(OPEN_LAST) == [[98]] && Said(OPEN_LAST) == [[98], [97, 46]]
    ensures WellFormed(OPEN_LAST) && LastEscaped(OPEN_LAST)
  {
    var t: seq<byte>, none: Label := OPEN_LAST, [];
    assert t[1..] == [46, 97, 92, 46] && t[1..][1..] == [97, 92, 46] && none + [98] == [98];
    assert t[..4][..3] == [98, 46, 97] && Backslashes([98, 46, 97]) == 0;
    OpenLabelSays();
    hide Tokens, Cut, Open;
    CutStep(t, []);
    OpenStep(t, []);
    CutStep(t[1..], [98]);
    OpenStep(t[1..], [98]);
  }

  lemma OpenLabelSays()
    ensures Cut(Tokens([97, 92, 46]), []) == [] && Open(Tokens([97, 92, 46]), []) == [[97, 46]]
  {
    var t: seq<byte>, last: seq<byte>, none: Label := [97, 92, 46], [92, 46], [];
    assert t[1..] == last && none + [97] == [97];
    EscapedDotSays(last);
    hide Tokens, Cut, Open;
    CutStep(t, []);
    OpenStep(t, []);
    CutByte(46, [], [97]);
    OpenByte(46, [], [97]);
    assert [Byte(46)] + [] == [Byte(46)] && [97] + [46] == [97, 46] && Tokens([]) == [] by { EscapedDotSays(last); }
    CutStep([], [97, 46]);
    OpenStep([], [97, 46]);
  }

  lemma EscapedDotSays(t: seq<byte>)
    requires t == [92, 46]
    ensures Tokens(t) == [Byte(46)] && Tokens([]) == []
  {
    assert t[1..] == [46] && t[2..] == [];
  }

  lemma OpenLastPacks(msg: seq<byte>, compress: bool)
    requires |msg| >= 3
    ensures var r := Pack(OPEN_LAST, msg, 0, map[], compress); r.Packed? && r.end == 3
  {
    var bs: seq<byte> := [98, 46, 97, 46, 46];
    var moved := Shift(OPEN_LAST, 3, 5, 1);
    assert moved == bs && moved[3..4][0] == 46 && moved[3 := 46] == moved && !StartsDdd(moved[3..4]);
    assert Unescaped(OPEN_LAST, 3, 5) == (bs, 4);
    hide Unescaped, Put;
    var table: Table := if compress then map[][OPEN_LAST := 0] else map[];
    assert OPEN_LAST[0..] == OPEN_LAST;
    var msg' := Put(msg, 0, [1] + OPEN_LAST[0..1]);
    assert PackLoop(bs, 4, 4, 2, true, msg', 2, table, 1, compress) == Packed(Put(msg', 2, [0]), table, 3, 1);
    assert PackLoop(OPEN_LAST, 5, 3, 2, false, msg', 2, table, 1, compress).Packed?;
    assert PackLoop(OPEN_LAST, 5, 2, 2, false, msg', 2, table, 1, compress) ==
           PackLoop(OPEN_LAST, 5, 3, 2, false, msg', 2, table, 1, compress);
    assert PackLoop(OPEN_LAST, 5, 1, 0, false, msg, 0, map[], 0, compress) ==
           PackLoop(OPEN_LAST, 5, 2, 2, false, msg', 2, table, 1, compress);
  }

  /**
   * Without compression, of every text that the packer accepts: the name comes
   * back in full, ending where the packer stopped, if and only if the text does
   * not begin with a dot and its last dot is not escaped. With a dot in front it
   * is the root that comes back, and the packer has gone on behind it.
   */
  lemma PlainExactly(text: seq<byte>, msg: seq<byte>, off: nat, table: Table)
    requires |text| > 1 && off <= |msg| && InRange(table) && Pack(text, msg, off, table, false).Packed?
    ensures var r := Pack(text, msg, off, table, false);
            && (Unpack(r.msg, off) == Unpacked(Display(Said(text)), r.end) <==> text[0] != DOT && !LastEscaped(text))
            && (text[0] == DOT ==> Unpack(r.msg, off) == Unpacked([DOT], off + 1) && off + 1 < r.end)
  {
    hide Tokens, Cut, PackLoop, LastEscaped, Denotes, InRange, Said, Unpack, Display, Wire, Put;
    PackWrites(text, msg, off, table);
    var r, labels := Pack(text, msg, off, table, false), Parse(text);
    FirstOfText(text);
    PutKeepsPrefix(msg, off, Wire(labels));
    if text[0] == DOT {
      RootInFront(r.msg, off, labels);
    } else {
      NoneEmpty(labels);
      LastLostExactly(text);
      SaidNotEmpty(text);
      WireRead(r.msg, off, labels);
      DisplayTells(labels, Said(text));
    }
  }

  lemma RootInFront(m: seq<byte>, off: nat, labels: seq<Label>)
    requires labels != [] && labels[0] == [] && (forall l <- labels :: |l| <= MAX_LABEL)
    requires off + |Wire(labels)| <= |m| && m[..off + |Wire(labels)|] == m[..off] + Wire(labels)
    ensures Unpack(m, off) == Unpacked([DOT], off + 1) && |Wire(labels)| >= 2
  {
    var w := Wire(labels);
    assert w[0] == 0 && |Wire(labels[1..])| >= 1;
    assert m[off] == m[..off + |w|][off] == 0;
  }

  lemma WireRead(m: seq<byte>, off: nat, labels: seq<Label>)
    requires forall l <- labels :: 1 <= |l| <= MAX_LABEL
    requires off + |Wire(labels)| <= |m| && m[..off + |Wire(labels)|] == m[..off] + Wire(labels)
    ensures Unpack(m, off) == Unpacked(Display(labels), off + |Wire(labels)|)
  {
    var w := Wire(labels);
    assert m[off..off + |w|] == w && w <= m[off..] by { assert m[off..][..|w|] == m[off..off + |w|]; }
    WireDenotes(m, off, labels);
    UnpackDenoted(m, off, labels, []);
  }

  lemma FirstOfText(text: seq<byte>)
    requires |text| > 1 && text[|text| - 1] == DOT
    ensures text[0] == DOT ==> Parse(text) != [] && Parse(text)[0] == []
    ensures text[0] != DOT && Parse(text) != [] ==> Parse(text)[0] != []
  {
    CutStep(text, []);
    if text[0] != DOT { FirstNotEmpty(text); }
  }

  lemma FirstNotEmpty(text: seq<byte>)
    requires text != [] && text[0] != DOT
    ensures Parse(text) != [] ==> Parse(text)[0] != []
  {
    var tokens := Tokens(text);
    assert tokens[0].Byte?;
    hide Tokens;
    OpenGrows(tokens[1..], [tokens[0].b]);
    assert [] + [tokens[0].b] == [tokens[0].b];
  }

  lemma {:induction false} OpenGrows(tokens: seq<Token>, open: Label)
    requires open != []
    ensures Cut(tokens, open) != [] ==> Cut(tokens, open)[0] != []
  {
    if tokens != [] && tokens[0].Byte? { OpenGrows(tokens[1..], open + [tokens[0].b]); }
  }

  lemma NoneEmpty(labels: seq<Label>)
    requires Acceptable(labels, true) && (labels != [] ==> labels[0] != [])
    ensures forall l <- labels :: 1 <= |l| <= MAX_LABEL
  {
    if labels != [] {
      RestNotEmpty(labels[1..]);
      assert labels == [labels[0]] + labels[1..];
    }
  }

  lemma {:induction false} RestNotEmpty(labels: seq<Label>)
    requires Acceptable(labels, false)
    ensures forall l <- labels :: 1 <= |l| <= MAX_LABEL
  {
    if labels != [] {
      RestNotEmpty(labels[1..]);
      assert labels == [labels[0]] + labels[1..];
    }
  }

  // ------------------------------------------------- keys that tell names apart

  // Keys with the labels they stand for.
  type Keys = set<(seq<byte>, seq<Label>)>

  // The keys of a name with the labels they stand for.
  function Suffixes(bs: seq<byte>, ls: nat, i: nat, begin: nat): Keys
    requires begin <= i <= ls <= |bs| && (i < ls ==> bs[ls - 1] == DOT)
    decreases ls - i
  {
    if i == ls then {}
    else if bs[i] == BACKSLASH then
      var (next, n) := Unescaped(bs, i, ls);
      Suffixes(next, n, i + 1, begin)
    else if bs[i] != DOT then Suffixes(bs, ls, i + 1, begin)
    else {(bs[begin..], Cut(Tokens(bs[i..ls]), bs[begin..i]))} + Suffixes(bs, ls, i + 1, i + 1)
  }

  function NameSuffixes(item: Item): Keys {
    if item.Name? && item.compress && Dotted(item.text) then Suffixes(item.text, |item.text|, 0, 0) else {}
  }

  function AllSuffixes(items: seq<Item>): Keys {
    if items == [] then {} else AllSuffixes(items[..|items| - 1]) + NameSuffixes(items[|items| - 1])
  }

  // No key stands for two different names.
  predicate Telling(all: Keys) {
    forall a <- all, b <- all :: a.0 == b.0 ==> a.1 == b.1
  }

  ghost predicate Among(means: Means, all: Keys) {
    forall k <- means :: (k, means[k].labels) in all
  }

  lemma {:induction false} ReadTelling(bs: seq<byte>, ls: nat, i: nat, begin: nat, off: nat, means: Means, all: Keys)
    requires begin <= i <= ls <= |bs| && (i < ls ==> bs[ls - 1] == DOT)
    requires Telling(all) && Suffixes(bs, ls, i, begin) <= all && Among(means, all)
    ensures var plan := Read(bs, ls, i, begin, off, means);
            plan.name.labels == Cut(Tokens(bs[i..ls]), bs[begin..i]) && Among(plan.means, all)
    decreases ls - i
  {
    hide Unescaped, Tokens, Cut;
    if i == ls {
      CutAtEnd(bs, ls, begin);
    } else if bs[i] == BACKSLASH {
      CutAtEscape(bs, ls, i, begin);
      var (next, n) := Unescaped(bs, i, ls);
      ReadTelling(next, n, i + 1, begin, off, means, all);
    } else if bs[i] != DOT {
      CutAtByte(bs, ls, i, begin);
      ReadTelling(bs, ls, i + 1, begin, off, means, all);
    } else {
      var l, key := bs[begin..i], bs[begin..];
      assert (key, Cut(Tokens(bs[i..ls]), l)) in all;
      if !(key != [DOT] && key in means) {
        ReadTelling(bs, ls, i + 1, i + 1, off + 1 + |l|, means, all);
        CutAtDot(bs, ls, i, begin);
      }
    }
  }

  lemma NameTelling(text: seq<byte>, compress: bool, off: nat, means: Means, all: Keys)
    requires WellFormed(text) && Telling(all) && Among(means, all) && NameSuffixes(Name(text, compress)) <= all
    ensures var plan := PlanName(text, compress, off, means);
            plan.name.labels == Named(text) && Among(plan.means, all)
    ensures NameRight(text, compress, means) <==> !LastEscaped(text)
  {
    hide Tokens, Cut, Suffixes, Telling, Among, Read, SharedRight, LastEscaped;
    if compress && Dotted(text) {
      assert text[0..|text|] == text && text[0..0] == [];
      ReadTelling(text, |text|, 0, 0, off, means, all);
    }
    NameRightExactly(text, compress, off, means);
    LastLostExactly(text);
  }

  lemma {:induction false} PlannedTelling(items: seq<Item>, all: Keys)
    requires (forall item <- items :: Proper(item)) && Telling(all) && AllSuffixes(items) <= all
    ensures Among(Planned(items).means, all)
  {
    if items != [] {
      hide Telling, Suffixes, NameSuffixes, PlanName, WellFormed;
      var front, last := items[..|items| - 1], items[|items| - 1];
      PlannedTelling(front, all);
      assert Proper(last);
      if last.Name? { NameTelling(last.text, last.compress, Planned(front).end, Planned(front).means, all); }
    }
  }

  lemma {:induction false} SuffixesOfFront(items: seq<Item>, k: nat)
    requires k < |items|
    ensures AllSuffixes(items[..k]) <= AllSuffixes(items) && NameSuffixes(items[k]) <= AllSuffixes(items)
    decreases |items|
  {
    var front := items[..|items| - 1];
    if k < |front| {
      SuffixesOfFront(front, k);
      assert front[..k] == items[..k];
    }
  }

  /**
   * If no key stands for two different names, every name is read as the labels
   * that the packer takes from it, or refused for its pointers; and it comes back
   * in full if and only if there are at most ten and its last dot is not escaped.
   */
  lemma TellingNamesSurvive(items: seq<Item>, msg: seq<byte>, k: nat)
    requires (forall item <- items :: Proper(item)) && k < |items| && items[k].Name?
    requires PackAll(items, msg).Some? && Telling(AllSuffixes(items))
    ensures var start, plan, whole := Planned(items[..k]).end, Planned(items[..k + 1]), PackAll(items, msg).value.msg;
            && Unpack(whole, start) ==
               (if plan.name.depth <= MAX_POINTERS then Unpacked(Display(Named(items[k].text)), plan.end)
                else Failed(TooManyPointers))
            && (Unpack(whole, start) == Unpacked(Display(Said(items[k].text)), plan.end) <==>
                plan.name.depth <= MAX_POINTERS && !LastEscaped(items[k].text))
  {
    hide Unpack, PackItem, Display, Telling, WellFormed, Suffixes, NameSuffixes, PlanName, Meant, NameRight;
    hide LastEscaped;
    NamesRead(items, msg, k);
    var front, item, all := items[..k], items[k], AllSuffixes(items);
    assert Proper(item) && forall x <- front :: x in items;
    SuffixesOfFront(items, k);
    PlannedTelling(front, all);
    NameTelling(item.text, item.compress, Planned(front).end, Planned(front).means, all);
  }

  // Names of which those with compression are free of escapes.
  predicate Ready(item: Item) {
    Proper(item) && (item.Name? && item.compress ==> EscapeFree(item.text))
  }

  // Names without escapes are of that kind: their keys are their own texts.
  lemma EscapeFreeTelling(items: seq<Item>)
    requires forall item <- items :: Ready(item)
    ensures Telling(AllSuffixes(items))
  {
    hide Parse;
    AllOwnTexts(items);
  }

  lemma {:induction false} AllOwnTexts(items: seq<Item>)
    requires forall item <- items :: Ready(item)
    ensures forall a <- AllSuffixes(items) :: a.1 == Parse(a.0)
  {
    if items != [] {
      hide Parse, Suffixes;
      var last := items[|items| - 1];
      AllOwnTexts(items[..|items| - 1]);
      assert Ready(last);
      if last.Name? && last.compress && Dotted(last.text) { OwnTexts(last.text, 0, 0); }
    }
  }

  lemma {:induction false} OwnTexts(s: seq<byte>, i: nat, begin: nat)
    requires begin <= i <= |s| && (i < |s| ==> s[|s| - 1] == DOT) && EscapeFree(s) && DOT !in s[begin..i]
    ensures forall a <- Suffixes(s, |s|, i, begin) :: a.1 == Parse(a.0)
    decreases |s| - i
  {
    hide Tokens, Cut, EscapeFree;
    EscapeFreeAt(s, begin, i);
    if i == |s| {
    } else if s[i] != DOT {
      assert s[begin..i + 1] == s[begin..i] + [s[i]];
      OwnTexts(s, i + 1, begin);
    } else {
      OwnTexts(s, i + 1, i + 1);
      var t := s[begin..];
      assert t[..i - begin] == s[begin..i] && t[i - begin..] == s[i..|s|] && [] + s[begin..i] == s[begin..i];
      CutSkips(t, i - begin, []);
    }
  }

  /**
   * Compression preserves names: without escapes every one comes back as itself,
   * or is refused if its chain of pointers is longer than ten. Every pointer
   * leads back, and there is at most one for each label.
   */
  lemma NamesSurvive(items: seq<Item>, msg: seq<byte>, k: nat) returns (hops: seq<nat>)
    requires (forall item <- items :: Ready(item)) && k < |items| && items[k].Name? && EscapeFree(items[k].text)
    requires PackAll(items, msg).Some?
    ensures var start, plan := Planned(items[..k]).end, Planned(items[..k + 1]);
            var labels, whole := Said(items[k].text), PackAll(items, msg).value.msg;
            && Denotes(whole, start, labels, hops) && Backward(whole, hops) && |hops| == plan.name.depth <= |labels|
            && Unpack(whole, start) ==
               if |hops| <= MAX_POINTERS then Unpacked(Display(labels), plan.end) else Failed(TooManyPointers)
  {
    hide Unpack, PackAll, Telling, WellFormed, Suffixes, NameSuffixes, PlanName, Display, NameRight, LastEscaped;
    hide EscapeFree, Said, Named, Denotes, Backward;
    EscapeFreeTelling(items);
    NamesRead(items, msg, k);
    var front, item, all := items[..k], items[k], AllSuffixes(items);
    assert Ready(item) && forall x <- front :: x in items && Ready(x);
    SuffixesOfFront(items, k);
    PlannedTelling(front, all);
    NameTelling(item.text, item.compress, Planned(front).end, Planned(front).means, all);
    NotEscaped(item.text);
    var plan, whole := Planned(items[..k + 1]), PackAll(items, msg).value.msg;
    hops :| MeansBy(whole, Planned(front).end, plan.name, plan.end, hops);
  }

  lemma NotEscaped(text: seq<byte>)
    requires WellFormed(text) && EscapeFree(text)
    ensures !LastEscaped(text) && Named(text) == Said(text)
  {
    LastLostExactly(text);
    if |text| > 1 { assert text[..|text| - 1][|text| - 2] in text; }
  }

  // Names of at most ten labels are therefore always readable.
  lemma ShortNamesReadable(items: seq<Item>, msg: seq<byte>, k: nat)
    requires (forall item <- items :: Ready(item)) && k < |items| && items[k].Name? && EscapeFree(items[k].text)
    requires PackAll(items, msg).Some? && |Said(items[k].text)| <= MAX_POINTERS
    ensures Unpack(PackAll(items, msg).value.msg, Planned(items[..k]).end) ==
            Unpacked(Display(Said(items[k].text)), Planned(items[..k + 1]).end)
  {
    var hops := NamesSurvive(items, msg, k);
  }
}
