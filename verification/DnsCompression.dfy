/**
 * Compression over a whole message (packDomainName with a shared table in
 * miekg/dns, msg.go).
 *
 * A message is written as a sequence of names and of other bytes. Every name
 * may leave entries in the table and may end in a pointer to an earlier name.
 * Here are such sequences, and the two ways in which they fail: chains that are
 * too long, and keys that stand for two names. DnsMeaning has the laws.
 */
module DnsCompression {
  import opened Common
  import opened DnsName
  import opened DnsPack
  import opened DnsText

  predicate EscapeFree(s: seq<byte>) { BACKSLASH !in s }

  // It ends in a dot, and no label that a dot closes is empty; or it is the root.
  predicate WellFormed(text: seq<byte>) {
    text == [DOT] || (|text| > 1 && text[|text| - 1] == DOT && forall l <- Parse(text) :: l != [])
  }

  // ------------------------------------------------ the text between the dots

  lemma {:induction false} CutSkips(t: seq<byte>, k: nat, open: Label)
    requires k <= |t| && DOT !in t[..k] && BACKSLASH !in t[..k]
    ensures Cut(Tokens(t), open) == Cut(Tokens(t[k..]), open + t[..k])
    decreases k
  {
    hide Tokens, Cut;
    if k == 0 {
      assert t[0..] == t && open + t[..0] == open;
    } else {
      assert t[0] in t[..k];
      CutStep(t, open);
      assert t[1..][..k - 1] == t[..k][1..];
      CutSkips(t[1..], k - 1, open + [t[0]]);
      assert t[1..][k - 1..] == t[k..];
      assert open + [t[0]] + t[1..][..k - 1] == open + t[..k];
    }
  }

  lemma ParseAtDot(s: seq<byte>, begin: nat, i: nat)
    requires begin <= i < |s| && s[i] == DOT && DOT !in s[begin..i] && BACKSLASH !in s[begin..i]
    ensures Parse(s[begin..]) == [s[begin..i]] + Parse(s[i + 1..])
  {
    var t := s[begin..];
    assert t[..i - begin] == s[begin..i] && t[i - begin..] == s[i..] && s[i..][1..] == s[i + 1..];
    CutSkips(t, i - begin, []);
    CutStep(s[i..], [] + s[begin..i]);
    assert [] + s[begin..i] == s[begin..i];
  }

  // ------------------------------------------------------- a name that stands

  lemma BackwardInLonger(m: seq<byte>, longer: seq<byte>, hops: seq<nat>)
    requires m <= longer && Backward(m, hops)
    ensures Backward(longer, hops)
  {
  }

  // What a packed name amounts to: at its offset the message means its labels
  // through backward pointers, at most one for each label, and its own bytes
  // end where the packer stopped.
  ghost predicate Stands(m: seq<byte>, at: nat, labels: seq<Label>, hops: seq<nat>, end: nat) {
    && Denotes(m, at, labels, hops) && Backward(m, hops) && |hops| <= |labels|
    && EndOf(m, at) == end
  }

  lemma StandsInLonger(m: seq<byte>, longer: seq<byte>, at: nat, labels: seq<Label>, hops: seq<nat>, end: nat)
    requires m <= longer && Stands(m, at, labels, hops, end)
    ensures Stands(longer, at, labels, hops, end)
  {
    DenotesInLonger(m, longer, at, labels, hops);
    BackwardInLonger(m, longer, hops);
  }

  lemma LabelStands(m: seq<byte>, at: nat, l: Label, rest: seq<Label>, hops: seq<nat>, end: nat)
    requires 1 <= |l| <= MAX_LABEL && at + 1 + |l| <= |m|
    requires m[at] == |l| && m[at + 1..at + 1 + |l|] == l
    requires Stands(m, at + 1 + |l|, rest, hops, end)
    ensures Stands(m, at, [l] + rest, hops, end)
  {
    assert ([l] + rest)[1..] == rest;
  }

  lemma EscapeFreeAt(s: seq<byte>, begin: nat, i: nat)
    requires EscapeFree(s) && begin <= i <= |s|
    ensures BACKSLASH !in s[begin..i] && (i < |s| ==> s[i] != BACKSLASH)
  {
  }

  lemma LastInTail(s: seq<byte>, begin: nat)
    requires begin <= |s|
    ensures begin < |s| ==> s[|s| - 1] in s[begin..]
  {
    if begin < |s| { assert s[begin..][|s| - 1 - begin] == s[|s| - 1]; }
  }

  lemma RootFits(msg: seq<byte>, off: nat, table: Table, compress: bool)
    requires off <= |msg| && InRange(table) && Pack([DOT], msg, off, table, compress).Packed?
    ensures off < |msg|
  {
  }

  lemma RootStands(msg: seq<byte>, off: nat)
    requires off < |msg|
    ensures Put(msg, off, [0])[..off] == msg[..off]
    ensures Stands(Put(msg, off, [0])[..off + 1], off, [], [], off + 1)
  {
  }

  lemma WireStands(msg: seq<byte>, off: nat, labels: seq<Label>)
    requires forall l <- labels :: 1 <= |l| <= MAX_LABEL
    requires off + |Wire(labels)| <= |msg|
    ensures var end := off + |Wire(labels)|;
            Stands(Put(msg, off, Wire(labels))[..end], off, labels, [], end)
  {
    var w := Wire(labels);
    PutKeepsPrefix(msg, off, w);
    var m := msg[..off] + w;
    assert m[off..] == w;
    WireDenotes(m, off, labels);
  }

  // -------------------------------------------------------- a whole message

  datatype Item = Raw(bytes: seq<byte>) | Name(text: seq<byte>, compress: bool)

  datatype State = State(msg: seq<byte>, off: nat, table: Table)

  predicate Sound(st: State) {
    st.off <= |st.msg| && InRange(st.table)
  }

  function PackItem(st: State, item: Item): (r: Option<State>)
    requires Sound(st)
    ensures r.Some? ==> Sound(r.value) && |r.value.msg| == |st.msg|
  {
    match item
    case Raw(bytes) =>
      if st.off + |bytes| > |st.msg| then None
      else Some(State(Put(st.msg, st.off, bytes), st.off + |bytes|, st.table))
    case Name(text, compress) =>
      match Pack(text, st.msg, st.off, st.table, compress)
      case Packed(msg, table, end, _) => Some(State(msg, end, table))
      case Refused(_, _, _) => None
  }

  // The items packed one behind the other into msg, with one table.
  function PackAll(items: seq<Item>, msg: seq<byte>): (r: Option<State>)
    ensures r.Some? ==> Sound(r.value) && |r.value.msg| == |msg|
  {
    if items == [] then Some(State(msg, 0, map[]))
    else match PackAll(items[..|items| - 1], msg)
      case None => None
      case Some(st) => PackItem(st, items[|items| - 1])
  }

  // ------------------------------------------------ names that are their text

  // Every byte can stand in a text as it is.
  predicate Plain(bytes: seq<byte>) {
    forall b <- bytes :: b == DOT || Escape(b) == [b]
  }

  // Everything that can be printed but space ( ) ; @ " and \.
  lemma PlainBytes(bytes: seq<byte>)
    ensures Plain(bytes) <==> forall b <- bytes :: 32 < b < 127 && b !in {40, 41, 59, 64, 34, 92}
  {
    forall b <- bytes
      ensures b == DOT || Escape(b) == [b] <==> 32 < b < 127 && b !in {40, 41, 59, 64, 34, 92}
    {
      EscapeExactly(b);
    }
  }

  lemma BackslashNotPlain(bytes: seq<byte>)
    requires Plain(bytes)
    ensures EscapeFree(bytes)
  {
    assert Escape(BACKSLASH) != [BACKSLASH];
  }

  lemma {:induction false} EscapeOfPlain(l: Label)
    requires forall b <- l :: Escape(b) == [b]
    ensures EscapeAll(l) == l
  {
    if l != [] {
      EscapeOfPlain(l[1..]);
      assert l == [l[0]] + l[1..];
    }
  }

  lemma {:induction false} TextOfPlain(s: seq<byte>, begin: nat, i: nat)
    requires begin <= i <= |s| && s != [] && s[|s| - 1] == DOT && Plain(s)
    requires DOT !in s[begin..i]
    ensures Text(Parse(s[begin..])) == s[begin..]
    decreases |s| - i
  {
    hide Escape, EscapeAll, Tokens, Cut;
    if i == |s| {
      LastInTail(s, begin);
      assert s[begin..i] == s[begin..];
      CutStep([], []);
    } else if s[i] != DOT {
      assert s[begin..i + 1] == s[begin..i] + [s[i]];
      TextOfPlain(s, begin, i + 1);
    } else {
      var l := s[begin..i];
      assert forall b <- l :: b in s;
      BackslashNotPlain(l);
      ParseAtDot(s, begin, i);
      EscapeOfPlain(l);
      TextOfPlain(s, i + 1, i + 1);
      var labels := [l] + Parse(s[i + 1..]);
      assert labels[1..] == Parse(s[i + 1..]);
      assert s[begin..] == l + [DOT] + s[i + 1..];
    }
  }

  // A name of plain bytes is free of escapes, and it is its own text: what
  // unpacking gives is the text that was packed.
  lemma PlainIsItsText(s: seq<byte>)
    requires s != [] && s[|s| - 1] == DOT && Plain(s)
    ensures EscapeFree(s) && Display(Named(s)) == s
  {
    BackslashNotPlain(s);
    TextOfPlain(s, 0, 0);
    assert s[0..] == s;
    assert Text([]) == [];
  }

  // --------------------------------------------------- chains that are too long

  // The name a.a. ... a. of n labels.
  function Nest(n: nat): (s: seq<byte>)
    ensures |s| == 2 * n
    ensures n > 0 ==> s[0] == 97 && s[1] == DOT && s[2 * n - 1] == DOT
  {
    if n == 0 then [] else [97, DOT] + Nest(n - 1)
  }

  function NestLabels(n: nat): seq<Label> {
    if n == 0 then [] else [[97]] + NestLabels(n - 1)
  }

  function Chain(n: nat): seq<Item> {
    if n == 0 then [] else Chain(n - 1) + [Name(Nest(n), true)]
  }

  // Packing one more name of the chain where the one before is known.
  lemma ChainStep(n: nat, msg: seq<byte>, off: nat, table: Table)
    requires n >= 1 && off + 4 <= |msg| && off < MAX_OFFSET && InRange(table)
    requires Nest(n) in table && Nest(n + 1) !in table
    ensures var r := Pack(Nest(n + 1), msg, off, table, true);
            && r.Packed? && r.end == off + 4 && r.table == table[Nest(n + 1) := off]
            && r.msg[..off + 4] == msg[..off] + [1, 97] + PointerBytes(table[Nest(n)])
  {
    var s := Nest(n + 1);
    var t := Nest(n);
    assert s == [97, DOT] + t;
    assert s[2..] == t && s[0..] == s && s[0..1] == [97] && s[2..3] == [97];
    assert s[2] == t[0] && s[3] == t[1];
    var counted: seq<byte> := [1, 97];
    var msg' := Put(msg, off, counted);
    var table' := table[s := off];
    InRangeWith(table, s, off);
    var msg'' := Put(msg', off + 2, counted);
    hide Put;
    var r := PackLoop(s, |s|, 2, 2, false, msg', off + 2, table', 1, true);
    assert t != [DOT] && t in table' && table'[t] == table[t];
    assert r == PackLoop(s, |s|, 3, 2, false, msg', off + 2, table', 1, true);
    assert [1] + s[2..3] == counted && [1] + s[0..1] == counted;
    assert r == Packed(Put(msg'', off + 2, PointerBytes(table[t])), table', off + 4, 1);
    assert Pack(s, msg, off, table, true) == PackLoop(s, |s|, 1, 0, false, msg, off, table, 0, true) == r;
    PutKeepsPrefix(msg, off, counted);
    PutKeepsPrefix(msg', off + 2, counted);
    PutKeepsPrefix(msg'', off + 2, PointerBytes(table[t]));
  }

  lemma ChainStart(msg: seq<byte>)
    requires |msg| >= 3
    ensures var r := Pack(Nest(1), msg, 0, map[], true);
            r.Packed? && r.end == 3 && r.table == map[Nest(1) := 0] && r.msg[..3] == [1, 97, 0]
  {
    var s := Nest(1);
    assert Nest(0) == [];
    assert s == [97, DOT];
    assert s[0..] == s && s[0..1] == [97];
    var counted: seq<byte> := [1, 97];
    var msg' := Put(msg, 0, counted);
    assert [1] + s[0..1] == counted;
    var table: Table := map[s := 0];
    assert map[][s := 0] == table;
    var r := PackLoop(s, 2, 2, 2, false, msg', 2, table, 1, true);
    assert r == Packed(Put(msg', 2, [0]), table, 3, 1);
    assert Pack(s, msg, 0, map[], true) == PackLoop(s, 2, 1, 0, false, msg, 0, map[], 0, true) == r;
  }

  lemma ChainStartDenotes()
    ensures Denotes([1, 97, 0], 0, NestLabels(1), [])
  {
    var m: seq<byte> := [1, 97, 0];
    assert NestLabels(0) == [] && Denotes(m, 2, NestLabels(0), []);
    assert m[1..2] == [97] && NestLabels(1)[1..] == NestLabels(0);
  }

  // The state behind the n-th name of the chain, which began at `start`.
  ghost predicate Chained(n: nat, st: State, start: nat, hops: seq<nat>) {
    && Sound(st) && st.off == 4 * n - 1 && (forall k <- st.table :: |k| <= 2 * n)
    && Nest(n) in st.table && st.table[Nest(n)] == start
    && Denotes(st.msg[..st.off], start, NestLabels(n), hops)
    && |hops| == n - 1
  }

  lemma ChainItem(n: nat, st: State, start: nat, hops: seq<nat>) returns (hops': seq<nat>)
    requires n >= 1 && Chained(n, st, start, hops) && 4 * n + 4 <= |st.msg| && 4 * n < MAX_OFFSET
    ensures PackItem(st, Name(Nest(n + 1), true)).Some?
    ensures Chained(n + 1, PackItem(st, Name(Nest(n + 1), true)).value, st.off, hops')
  {
    hide Pack, Denotes;
    ChainStep(n, st.msg, st.off, st.table);
    hops' := [st.off + 2] + hops;
    InRangeAt(st.table, Nest(n));
    ChainLink(st.msg[..st.off], start, NestLabels(n), hops);
  }

  lemma {:induction false} ChainPacks(n: nat, msg: seq<byte>) returns (hops: seq<nat>)
    requires n >= 1 && 4 * n <= |msg| && 4 * n < MAX_OFFSET
    ensures PackAll(Chain(n), msg).Some? && PackAll(Chain(n - 1), msg).Some?
    ensures Chained(n, PackAll(Chain(n), msg).value, PackAll(Chain(n - 1), msg).value.off, hops)
    decreases n
  {
    var front := Chain(n - 1);
    assert Chain(n)[..|Chain(n)| - 1] == front;
    if n == 1 {
      hide Pack, Denotes;
      ChainStart(msg);
      hops := [];
      assert front == [] && PackAll(front, msg) == Some(State(msg, 0, map[]));
      ChainStartDenotes();
    } else {
      hide Chained, PackItem;
      var tail := ChainPacks(n - 1, msg);
      hops := ChainItem(n - 1, PackAll(front, msg).value, PackAll(Chain(n - 2), msg).value.off, tail);
    }
  }

  // A label a in front of a pointer to a name.
  lemma ChainLink(m: seq<byte>, p: nat, labels: seq<Label>, hops: seq<nat>)
    requires p < MAX_OFFSET && Denotes(m, p, labels, hops)
    ensures Denotes(m + [1, 97] + PointerBytes(p), |m|, [[97]] + labels, [|m| + 2] + hops)
  {
    var longer := m + [1, 97] + PointerBytes(p);
    DenotesInLonger(m, longer, p, labels, hops);
    assert ([|m| + 2] + hops)[1..] == hops && ([[97]] + labels)[1..] == labels;
    assert longer[|m|..] == [1, 97] + PointerBytes(p);
    assert longer[|m|] == 1 && longer[|m| + 1..|m| + 2] == [97];
    assert longer[|m| + 2] == 192 + p / 256 && longer[|m| + 3] == p % 256;
    assert PointerTarget(longer, |m| + 2) == p;
    assert Denotes(longer, |m| + 2, labels, [|m| + 2] + hops);
  }

  // Beyond ten pointers the packer writes what its own unpacker refuses: of
  // a., a.a., a.a.a. and so on, the twelfth and every later name.
  lemma LongChainUnreadable(n: nat, msg: seq<byte>)
    requires 12 <= n && 4 * n <= |msg| && 4 * n < MAX_OFFSET
    ensures PackAll(Chain(n), msg).Some? && PackAll(Chain(n - 1), msg).Some?
    ensures Unpack(PackAll(Chain(n), msg).value.msg, PackAll(Chain(n - 1), msg).value.off) == Failed(TooManyPointers)
  {
    var hops := ChainPacks(n, msg);
    var st := PackAll(Chain(n), msg).value;
    DenotesInLonger(st.msg[..st.off], st.msg, st.table[Nest(n)], NestLabels(n), hops);
    UnpackDenoted(st.msg, st.table[Nest(n)], NestLabels(n), hops);
  }

  // ------------------------------------------------------ names with escapes

  // The step over a label of one plain byte whose key is new.
  lemma OneByteLabel(bs: seq<byte>, ls: nat, i: nat, msg: seq<byte>, off: nat, table: Table, n: nat)
    requires i + 2 <= ls <= |bs| && bs[ls - 1] == DOT && off + 2 <= |msg| && off < MAX_OFFSET && InRange(table)
    requires bs[i] != DOT && bs[i] != BACKSLASH && bs[i + 1] == DOT
    requires bs[i..] != [DOT] && bs[i..] !in table
    ensures InRange(table[bs[i..] := off])
    ensures PackLoop(bs, ls, i, i, false, msg, off, table, n, true) ==
            PackLoop(bs, ls, i + 2, i + 2, false, Put(msg, off, [1, bs[i]]), off + 2, table[bs[i..] := off], n + 1,
                     true)
  {
    InRangeWith(table, bs[i..], off);
    assert [1] + bs[i..i + 1] == [1, bs[i]];
    assert PackLoop(bs, ls, i, i, false, msg, off, table, n, true) ==
           PackLoop(bs, ls, i + 1, i, false, msg, off, table, n, true);
  }

  // The texts \x.a.b. and a\.b.
  const ESCAPED_FIRST: seq<byte> := [92, 120, 46, 97, 46, 98, 46]
  const ESCAPED_DOT: seq<byte> := [97, 92, 46, 98, 46]
  // The second buffer once unescaped: a.b. with one stale byte behind.
  const STALE: seq<byte> := [97, 46, 98, 46, 46]

  lemma FirstUnescaped()
    ensures Unescaped(ESCAPED_FIRST, 0, 7) == ([120, 46, 97, 46, 98, 46, 46], 6)
  {
    var moved := Shift(ESCAPED_FIRST, 0, 7, 1);
    assert moved == [120, 46, 97, 46, 98, 46, 46];
    assert moved[0..6][0] == 120;
    assert Unescape(moved[0..6]) == 120 && moved[0 := 120] == moved;
    assert !StartsDdd(moved[0..6]);
  }

  lemma SecondUnescaped()
    ensures Unescaped(ESCAPED_DOT, 1, 5) == (STALE, 4)
  {
    var moved := Shift(ESCAPED_DOT, 1, 5, 1);
    assert moved == STALE;
    assert moved[1..4][0] == 46;
    assert Unescape(moved[1..4]) == 46 && moved[1 := 46] == moved;
    assert !StartsDdd(moved[1..4]);
  }

  lemma FirstPacks(msg: seq<byte>)
    requires |msg| >= 11
    ensures var r := Pack(ESCAPED_FIRST, msg, 0, map[], true);
            && r.Packed? && r.end == 7 && r.msg[..7] == [1, 120, 1, 97, 1, 98, 0]
            && STALE in r.table && r.table[STALE] == 2
  {
    var bs: seq<byte> := [120, 46, 97, 46, 98, 46, 46];
    FirstUnescaped();
    assert bs[2..] == STALE;
    hide Put, PackLoop, Pack;
    EscapedLabel(bs, msg, map[]);
    TwoLabels(bs, Put(msg, 0, [1, 120]));
    var m1 := Put(msg, 0, [1, 120]);
    var m2 := Put(m1, 2, [1, 97]);
    FourWrites(msg, m1, m2, Put(m2, 4, [1, 98]));
  }

  lemma TwoLabels(bs: seq<byte>, msg: seq<byte>)
    requires |msg| >= 11 && bs == [120, 46, 97, 46, 98, 46, 46]
    ensures bs[2..] == STALE
    ensures PackLoop(bs, 6, 2, 2, false, msg, 2, map[][bs := 0], 1, true) ==
            Packed(Put(Put(Put(msg, 2, [1, 97]), 4, [1, 98]), 6, [0]), map[][bs := 0][STALE := 2][[98, 46, 46] := 4],
                   7, 3)
  {
    hide Put, PackLoop;
    assert bs[2..] == STALE && bs[4..] == [98, 46, 46];
    assert |bs| == 7 && |STALE| == 5;
    var t1: Table := map[][bs := 0];
    var t2 := t1[STALE := 2];
    var m2 := Put(msg, 2, [1, 97]);
    OneByteLabel(bs, 6, 2, msg, 2, t1, 1);
    OneByteLabel(bs, 6, 4, m2, 4, t2, 2);
    LoopEnds(bs, 6, Put(m2, 4, [1, 98]), 6, t2[bs[4..] := 4], 3);
  }

  lemma LoopEnds(bs: seq<byte>, ls: nat, msg: seq<byte>, off: nat, table: Table, n: nat)
    requires 1 < ls <= |bs| && off < |msg| && InRange(table)
    ensures PackLoop(bs, ls, ls, ls, false, msg, off, table, n, true) == Packed(Put(msg, off, [0]), table, off + 1, n)
  {
  }

  lemma EscapedLabel(bs: seq<byte>, msg: seq<byte>, table: Table)
    requires |msg| >= 11 && table == map[]
    requires bs == [120, 46, 97, 46, 98, 46, 46] && Unescaped(ESCAPED_FIRST, 0, 7) == (bs, 6)
    ensures Pack(ESCAPED_FIRST, msg, 0, table, true) ==
            PackLoop(bs, 6, 2, 2, false, Put(msg, 0, [1, 120]), 2, table[bs := 0], 1, true)
  {
    hide Put, Unescaped;
    assert bs[0..] == bs && [1] + bs[0..1] == [1, 120];
    assert Pack(ESCAPED_FIRST, msg, 0, table, true) == PackLoop(bs, 6, 1, 0, false, msg, 0, table, 0, true);
  }

  lemma FourWrites(msg: seq<byte>, m1: seq<byte>, m2: seq<byte>, m3: seq<byte>)
    requires |msg| >= 11
    requires m1 == Put(msg, 0, [1, 120]) && m2 == Put(m1, 2, [1, 97]) && m3 == Put(m2, 4, [1, 98])
    ensures Put(m3, 6, [0])[..7] == [1, 120, 1, 97, 1, 98, 0]
  {
  }

  lemma SecondPoints(msg: seq<byte>, table: Table)
    requires |msg| >= 11 && InRange(table) && STALE in table && table[STALE] == 2
    ensures var r := Pack(ESCAPED_DOT, msg, 7, table, true);
            r.Packed? && r.end == 9 && r.msg[..9] == msg[..7] + [192, 2]
  {
    SecondUnescaped();
    var counted: seq<byte> := [3, 97, 46, 98];
    assert [3] + STALE[0..3] == counted && STALE[0..] == STALE;
    var r := Packed(Put(Put(msg, 7, counted), 7, PointerBytes(2)), table, 9, 0);
    hide Put, Unescaped;
    assert PackLoop(STALE, 4, 3, 0, false, msg, 7, table, 0, true) == r;
    assert PackLoop(STALE, 4, 2, 0, true, msg, 7, table, 0, true) == r;
    assert PackLoop(ESCAPED_DOT, 5, 1, 0, false, msg, 7, table, 0, true) == r;
    assert PackLoop(ESCAPED_DOT, 5, 0, 0, false, msg, 7, table, 0, true) == r;
    PutKeepsPrefix(msg, 7, counted);
    PutKeepsPrefix(Put(msg, 7, counted), 7, PointerBytes(2));
  }

  /**
   * With escapes the keys are cut from a buffer with a stale tail, and two
   * different names can have the same key: packed behind \x.a.b., the name
   * a\.b. becomes a pointer to the two labels a and b.
   */
  lemma EscapesCollide(msg: seq<byte>)
    requires |msg| >= 11
    ensures WellFormed(ESCAPED_FIRST) && WellFormed(ESCAPED_DOT) && Parse(ESCAPED_DOT) == [[97, 46, 98]]
    ensures PackAll([Name(ESCAPED_FIRST, true)], msg).Some? && PackAll([Name(ESCAPED_FIRST, true)], msg).value.off == 7
    ensures var r := PackAll([Name(ESCAPED_FIRST, true), Name(ESCAPED_DOT, true)], msg);
            r.Some? && Unpack(r.value.msg, 7) == Unpacked(Text([[97], [98]]), 9)
  {
    var one, both := [Name(ESCAPED_FIRST, true)], [Name(ESCAPED_FIRST, true), Name(ESCAPED_DOT, true)];
    hide Pack, Unpack, WellFormed, Parse, Text, InRange;
    assert one[..0] == [] && both[..1] == one;
    FirstPacks(msg);
    assert PackAll([], msg) == Some(State(msg, 0, map[]));
    var st := PackAll(one, msg).value;
    SecondPoints(st.msg, st.table);
    CollidingBytes(PackAll(both, msg).value.msg);
    CollidingTexts();
  }

  lemma CollidingTexts()
    ensures WellFormed(ESCAPED_FIRST) && WellFormed(ESCAPED_DOT) && Parse(ESCAPED_DOT) == [[97, 46, 98]]
  {
    var labels: seq<Label> := [[97, 46, 98]];
    assert labels[1..] == [];
    assert EscapeAll([98]) == [98] && EscapeAll([46, 98]) == [92, 46, 98] &&
           EscapeAll([97, 46, 98]) == [97, 92, 46, 98];
    assert Text(labels) == ESCAPED_DOT;
    ParseOfText(labels);
    hide Tokens, Cut;
    EscapedFirstParses();
  }

  lemma EscapedFirstParses()
    ensures Parse(ESCAPED_FIRST) == [[120], [97], [98]]
  {
    var t, rest: seq<byte> := ESCAPED_FIRST, [46, 97, 46, 98, 46];
    assert t[1..] == [120] + rest && t[2..] == rest;
    assert Tokens(t) == [Byte(120)] + Tokens(rest);
    hide Tokens, Cut;
    CutByte(120, Tokens(rest), []);
    assert [] + [120] == [120];
    RestParses(rest);
  }

  lemma RestParses(rest: seq<byte>)
    requires rest == [46, 97, 46, 98, 46]
    ensures Cut(Tokens(rest), [120]) == [[120], [97], [98]]
  {
    hide Tokens, Cut;
    CutStep(rest, [120]);
    assert rest[5..] == [] && rest[1..3] == [97, 46] && rest[1..2] == [97] && rest[3..4] == [98];
    ParseAtDot(rest, 1, 2);
    ParseAtDot(rest, 3, 4);
    CutStep([], []);
  }

  lemma CollidingBytes(m: seq<byte>)
    requires |m| >= 11 && m[..9] == [1, 120, 1, 97, 1, 98, 0, 192, 2]
    ensures Unpack(m, 7) == Unpacked(Text([[97], [98]]), 9)
  {
    var s: seq<byte> := [1, 120, 1, 97, 1, 98, 0, 192, 2];
    assert forall i :: 0 <= i < 9 ==> m[i] == s[i];
    var labels: seq<Label> := [[97], [98]];
    assert labels[1..] == [[98]] && labels[1..][1..] == [];
    assert m[3..4] == [97] && m[5..6] == [98];
    assert Denotes(m, 6, [], []);
    assert Denotes(m, 4, labels[1..], []);
    assert Denotes(m, 2, labels, []);
    assert PointerTarget(m, 7) == 2 && [7][1..] == [];
    assert Denotes(m, 7, labels, [7]);
    UnpackDenoted(m, 7, labels, [7]);
  }
}
