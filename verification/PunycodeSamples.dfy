/**
  Labels with their encodings: one of Latin letters, and two of section 7.1 of RFC
  3492, which have several extended code points.
 */
module PunycodeSamples {
  import opened Punycode
  import opened PunycodeDigits

  function Text(s: string): (t: seq<Rune>)
    ensures |t| == |s|
  {
    seq(|s|, i requires 0 <= i < |s| => s[i] as int)
  }

  // ------------------------------------------------ from one hit to the next

  lemma {:induction false} Missed(b: seq<Rune>, n: Rune, p: nat, to: nat, nd: int, i: nat, bias: nat, max: int)
    requires p <= to <= |b| && CursorBehind(b, n, p, nd, i) && n <= max && n !in b[p..to]
    ensures CursorBehind(b, n, to, nd, i)
    ensures Deltas(b, n, p, nd, i, bias, max) == Deltas(b, n, to, nd, i, bias, max)
    decreases |b| - p
  {
    if p < to {
      assert b[p] == b[p..to][0] && b[p + 1..to] == b[p..to][1..];
      CursorAfterStep(b, n, p, nd, i);
      Missed(b, n, p + 1, to, nd, i, bias, max);
    }
  }

  // From the cell <n, p> the next code point that is met is m at q.
  predicate NextMet(b: seq<Rune>, n: Rune, p: nat, m: Rune, q: nat) {
    && n <= m && (n == m ==> p <= q) && q < |b| && b[q] == m
    && forall x :: 0 <= x < |b| ==> b[x] < n || (b[x] == n && x < p) || m < b[x] || (b[x] == m && q <= x)
  }

  // Its delta comes first.
  lemma DeltaComes(b: seq<Rune>, n: Rune, p: nat, nd: int, i: nat, bias: nat, max: int, m: Rune, q: nat)
    requires p <= |b| && CursorBehind(b, n, p, nd, i) && NextMet(b, n, p, m, q) && m <= max
    ensures CursorBehind(b, m, q, nd, i) && CursorBehind(b, m, q + 1, m, Before(b, m, q) + 1)
    ensures var delta, points := Delta(b, m, q, nd, i), |Rebuilt(b, m, q)| + 1;
            Deltas(b, n, p, nd, i, bias, max) ==
            PutVar(delta, BASE, bias) +
            Deltas(b, m, q + 1, m, Before(b, m, q) + 1, NewBias(delta, points, i == 0), max)
  {
    hide CursorBehind, PutVar, NewBias, Kept, Deltas;
    if n == m {
      Missed(b, n, p, q, nd, i, bias, max);
    } else {
      EmptyPass(b, n, p, nd, i, bias, max);
      Jump(b, n + 1, m, nd, i, bias, max);
      Missed(b, m, 0, q, nd, i, bias, max);
    }
    CellUnfolds(b, m, q, nd, i, bias, max);
  }

  // The same with its numbers: the digits are worth the delta, and the next bias is
  // told by its quotients.
  lemma HitDigits(b: seq<Rune>, max: int, n: Rune, p: nat, nd: int, i: nat, bias: nat,
                  m: Rune, q: nat, rebuilt: nat, before: nat,
                  ds: seq<nat>, e: nat, share: nat, qs: seq<nat>, bias': nat)
    requires p <= |b| && CursorBehind(b, n, p, nd, i) && NextMet(b, n, p, m, q) && m <= max
    requires |Kept(b, m, q, |b|)| == rebuilt && |Kept(b, m, q, q)| == before
    requires IsVar(ds, 36, bias)
    requires var delta := Value(ds, 36, bias);
             && delta == (rebuilt + 1) * (m - nd) + before - i
             && IsBias(bias', delta, rebuilt + 1, i == 0, e, share, qs)
    ensures CursorBehind(b, m, q + 1, m, before + 1)
    ensures Deltas(b, n, p, nd, i, bias, max) == Letters(ds) + Deltas(b, m, q + 1, m, before + 1, bias', max)
  {
    hide CursorBehind, PutVar, NewBias, Kept, Deltas, NextMet, IsVar, Value, Letters, IsBias;
    DeltaComes(b, n, p, nd, i, bias, max, m, q);
    WrittenByValue(ds, 36, bias);
    BiasExactly(Value(ds, 36, bias), rebuilt + 1, i == 0, bias');
  }

  // The same behind digits that are known.
  lemma HitComes(b: seq<Rune>, max: int, known: seq<nat>, n: Rune, p: nat, nd: int, i: nat, bias: nat,
                 m: Rune, q: nat, rebuilt: nat, before: nat,
                 ds: seq<nat>, e: nat, share: nat, qs: seq<nat>, bias': nat, known': seq<nat>)
    requires p <= |b| && CursorBehind(b, n, p, nd, i) && NextMet(b, n, p, m, q) && m <= max
    requires Begins(b, max, known, n, p, nd, i, bias) && known' == known + ds
    requires |Kept(b, m, q, |b|)| == rebuilt && |Kept(b, m, q, q)| == before
    requires IsVar(ds, 36, bias)
    requires var delta := Value(ds, 36, bias);
             && delta == (rebuilt + 1) * (m - nd) + before - i
             && IsBias(bias', delta, rebuilt + 1, i == 0, e, share, qs)
    ensures CursorBehind(b, m, q + 1, m, before + 1)
    ensures Begins(b, max, known', m, q + 1, m, before + 1, bias')
  {
    assert q < |b|;
    hide CursorBehind, Kept, Deltas, NextMet, IsVar, Value, Letters, IsBias, AllFrom;
    HitDigits(b, max, n, p, nd, i, bias, m, q, rebuilt, before, ds, e, share, qs, bias');
    GoesOn(AllFrom(b, max), known, ds, Deltas(b, m, q + 1, m, before + 1, bias', max));
  }

  lemma GoesOn(all: seq<Rune>, known: seq<nat>, ds: seq<nat>, rest: seq<Rune>)
    requires all == Letters(known) + (Letters(ds) + rest)
    ensures all == Letters(known + ds) + rest
  {
    assert Letters(known + ds) == Letters(known) + Letters(ds);
  }

  // All deltas of a label.
  function AllFrom(b: seq<Rune>, max: int): seq<Rune> {
    Deltas(b, 128, 0, 128, 0, 72, max)
  }

  // They begin with digits that are known.
  predicate Begins(b: seq<Rune>, max: int, known: seq<nat>, n: Rune, p: nat, nd: int, i: nat, bias: nat)
    requires p <= |b| && CursorBehind(b, n, p, nd, i)
  {
    AllFrom(b, max) == Letters(known) + Deltas(b, n, p, nd, i, bias, max)
  }

  lemma Started(b: seq<Rune>, max: int)
    ensures CursorBehind(b, 128, 0, 128, 0) && Begins(b, max, [], 128, 0, 128, 0, 72)
  {
    hide Deltas;
    assert Letters([]) == [];
  }

  // When all code points have been met the label is written. The literal code points
  // stand in front, with a delimiter if there are any.
  lemma Written(b: seq<Rune>, max: int, digits: seq<nat>, p: nat, i: nat, bias: nat, front: string, tail: string)
    requires p <= |b| && max >= 0 && CursorBehind(b, max, p, max, i) && max !in b[p..]
    requires Begins(b, max, digits, max, p, max, i, bias) && Letters(digits) == Text(tail)
    requires var basic := Kept(b, 128, 0, |b|);
             && |basic| < |b| && MaxRune(b) == max && 45 !in b
             && Text(front) == if basic == [] then [] else basic + [45]
    ensures EncodeLabel(b) == Text("xn--" + front + tail) && DecodeLabel(Text("xn--" + front + tail)) == b
  {
    hide Kept, Deltas, MaxRune, DecodeLabel, EncodeLabel, CursorBehind, Letters, Text;
    EmptyPass(b, max, p, max, i, bias, max);
    NothingFollows(b, max, i, bias, max);
    assert Text(tail) + [] == Text(tail);
    LettersAre(front, tail);
    InParts(b, Kept(b, 128, 0, |b|), Text(tail), max);
  }

  lemma NothingFollows(b: seq<Rune>, n: Rune, i: nat, bias: nat, max: int)
    requires n == max && CursorBehind(b, n + 1, 0, n, i)
    ensures Deltas(b, n + 1, 0, n, i, bias, max) == []
  {
  }

  lemma InParts(b: seq<Rune>, literals: seq<Rune>, digits: seq<Rune>, max: int)
    requires Kept(b, 128, 0, |b|) == literals && |literals| < |b| && MaxRune(b) == max && 45 !in b
    requires AllFrom(b, max) == digits
    ensures EncodeLabel(b) == PREFIX + (if literals == [] then [] else literals + [DELIMITER]) + digits
    ensures DecodeLabel(EncodeLabel(b)) == b
  {
    hide Kept, Deltas, MaxRune, DecodeLabel;
    HyphenFreeRoundTrip(b);
  }

  lemma LettersAre(front: string, tail: string)
    ensures Text("xn--" + front + tail) == PREFIX + Text(front) + Text(tail)
  {
  }

  lemma LettersJoin(a: seq<nat>, b: seq<nat>, s: string, t: string)
    requires Letters(a) == Text(s) && Letters(b) == Text(t)
    ensures Letters(a + b) == Text(s + t)
  {
    assert Letters(a + b) == Letters(a) + Letters(b);
    assert Text(s + t) == Text(s) + Text(t);
  }

  lemma TextOf(digits: seq<nat>, s: string)
    requires |digits| == |s| && forall i :: 0 <= i < |s| ==> digits[i] < 36 && s[i] == LETTERS[digits[i]]
    ensures Letters(digits) == Text(s)
  {
  }

  // ------------------------------------------------------------- the labels

  // The counts are those of the code points that are in place when the next one
  // comes: in the whole label, and in front of it.
  lemma BuecherMax()
    ensures MaxRune([98, 0xfc, 99, 104, 101, 114]) == 0xfc
  {
  }

  lemma BuecherKept()
    ensures Kept([98, 0xfc, 99, 104, 101, 114], 128, 0, 6) == [98, 99, 104, 101, 114]
    ensures [98, 99, 104, 101, 114] + [45] == Text("bcher-")
  {
  }

  lemma BuecherCounts()
    ensures |Kept([98, 0xfc, 99, 104, 101, 114], 0xfc, 1, 6)| == 5
    ensures |Kept([98, 0xfc, 99, 104, 101, 114], 0xfc, 1, 1)| == 1
  {
  }

  lemma BuecherDigits()
    ensures IsVar([10, 21, 0], 36, 72) && Value([10, 21, 0], 36, 72) == 745
    ensures IsBias(0, 745, 6, true, 1, 0, [1])
  {
  }

  lemma BuecherMet()
    ensures NextMet([98, 0xfc, 99, 104, 101, 114], 128, 0, 0xfc, 1)
  {
  }

  lemma BuecherText()
    ensures Letters([10, 21, 0]) == Text("kva")
  {
    TextOf([10, 21, 0], "kva");
  }

  // A label of Latin letters.
  lemma Buecher()
    ensures EncodeLabel([98, 0xfc, 99, 104, 101, 114]) ==
            Text("xn--bcher-kva")
    ensures DecodeLabel(Text("xn--bcher-kva")) ==
            [98, 0xfc, 99, 104, 101, 114]
  {
    hide Deltas, EncodeLabel, DecodeLabel, Kept, MaxRune, IsVar, Value, Letters, IsBias, NextMet, Begins, Text;
    BuecherMax();
    BuecherKept();
    BuecherCounts();
    BuecherMet();
    BuecherText();
    BuecherDigits();
    var b: seq<Rune> := [98, 0xfc, 99, 104, 101, 114];
    Started(b, 0xfc);
    hide CursorBehind;
    HitComes(b, 0xfc, [], 128, 0, 128, 0, 72, 0xfc, 1, 5, 1,
             [10, 21, 0], 1, 0, [1], 0,
             [10, 21, 0]);
    assert "xn--" + "bcher-" + "kva" == "xn--bcher-kva";
    Written(b, 0xfc, [10, 21, 0],
            2, 2, 0, "bcher-", "kva");
  }

  lemma KinpachiMax()
    ensures MaxRune([51, 0x5e74, 98, 0x7d44, 0x91d1, 0x516b, 0x5148, 0x751f]) == 0x91d1
  {
  }

  lemma KinpachiKept()
    ensures Kept([51, 0x5e74, 98, 0x7d44, 0x91d1, 0x516b, 0x5148, 0x751f], 128, 0, 8) == [51, 98]
    ensures [51, 98] + [45] == Text("3b-")
  {
  }

  lemma KinpachiCounts()
    ensures |Kept([51, 0x5e74, 98, 0x7d44, 0x91d1, 0x516b, 0x5148, 0x751f], 0x5148, 6, 8)| == 2
    ensures |Kept([51, 0x5e74, 98, 0x7d44, 0x91d1, 0x516b, 0x5148, 0x751f], 0x5148, 6, 6)| == 2
    ensures |Kept([51, 0x5e74, 98, 0x7d44, 0x91d1, 0x516b, 0x5148, 0x751f], 0x516b, 5, 8)| == 3
    ensures |Kept([51, 0x5e74, 98, 0x7d44, 0x91d1, 0x516b, 0x5148, 0x751f], 0x516b, 5, 5)| == 2
    ensures |Kept([51, 0x5e74, 98, 0x7d44, 0x91d1, 0x516b, 0x5148, 0x751f], 0x5e74, 1, 8)| == 4
    ensures |Kept([51, 0x5e74, 98, 0x7d44, 0x91d1, 0x516b, 0x5148, 0x751f], 0x5e74, 1, 1)| == 1
    ensures |Kept([51, 0x5e74, 98, 0x7d44, 0x91d1, 0x516b, 0x5148, 0x751f], 0x751f, 7, 8)| == 5
    ensures |Kept([51, 0x5e74, 98, 0x7d44, 0x91d1, 0x516b, 0x5148, 0x751f], 0x751f, 7, 7)| == 5
    ensures |Kept([51, 0x5e74, 98, 0x7d44, 0x91d1, 0x516b, 0x5148, 0x751f], 0x7d44, 3, 8)| == 6
    ensures |Kept([51, 0x5e74, 98, 0x7d44, 0x91d1, 0x516b, 0x5148, 0x751f], 0x7d44, 3, 3)| == 3
    ensures |Kept([51, 0x5e74, 98, 0x7d44, 0x91d1, 0x516b, 0x5148, 0x751f], 0x91d1, 4, 8)| == 7
    ensures |Kept([51, 0x5e74, 98, 0x7d44, 0x91d1, 0x516b, 0x5148, 0x751f], 0x91d1, 4, 4)| == 4
  {
  }

  lemma KinpachiDigits0()
    ensures IsVar([22, 22, 30, 2], 36, 72) && Value([22, 22, 30, 2], 36, 72) == 62042
    ensures IsBias(27, 62042, 3, true, 88, 29, [117])
    ensures IsVar([31, 4], 36, 27) && Value([31, 4], 36, 27) == 139
    ensures IsBias(24, 139, 4, false, 69, 17, [86])
  {
  }

  lemma KinpachiDigits1()
    ensures IsVar([27, 34, 26, 4], 36, 24) && Value([27, 34, 26, 4], 36, 24) == 16683
    ensures IsBias(67, 16683, 5, false, 8341, 1668, [10009, 285])
    ensures IsVar([31, 33, 31, 0], 36, 67) && Value([31, 33, 31, 0], 36, 67) == 34821
    ensures IsBias(82, 34821, 6, false, 17410, 2901, [20311, 580, 16])
  {
  }

  lemma KinpachiDigits2()
    ensures IsVar([32, 31, 11], 36, 82) && Value([32, 31, 11], 36, 82) == 14592
    ensures IsBias(67, 14592, 7, false, 7296, 1042, [8338, 238])
    ensures IsVar([18, 24, 28, 1], 36, 67) && Value([18, 24, 28, 1], 36, 67) == 42088
    ensures IsBias(84, 42088, 8, false, 21044, 2630, [23674, 676, 19])
  {
  }

  lemma KinpachiMet()
    ensures NextMet([51, 0x5e74, 98, 0x7d44, 0x91d1, 0x516b, 0x5148, 0x751f], 128, 0, 0x5148, 6)
    ensures NextMet([51, 0x5e74, 98, 0x7d44, 0x91d1, 0x516b, 0x5148, 0x751f], 0x5148, 7, 0x516b, 5)
    ensures NextMet([51, 0x5e74, 98, 0x7d44, 0x91d1, 0x516b, 0x5148, 0x751f], 0x516b, 6, 0x5e74, 1)
    ensures NextMet([51, 0x5e74, 98, 0x7d44, 0x91d1, 0x516b, 0x5148, 0x751f], 0x5e74, 2, 0x751f, 7)
    ensures NextMet([51, 0x5e74, 98, 0x7d44, 0x91d1, 0x516b, 0x5148, 0x751f], 0x751f, 8, 0x7d44, 3)
    ensures NextMet([51, 0x5e74, 98, 0x7d44, 0x91d1, 0x516b, 0x5148, 0x751f], 0x7d44, 4, 0x91d1, 4)
  {
  }

  lemma KinpachiFirstHalf()
    ensures Letters([22, 22, 30, 2, 31, 4, 27, 34, 26, 4]) == Text("ww4c5e180e")
  {
    TextOf([22, 22, 30, 2, 31, 4, 27, 34, 26, 4], "ww4c5e180e");
  }

  lemma KinpachiLastHalf()
    ensures Letters([31, 33, 31, 0, 32, 31, 11, 18, 24, 28, 1]) == Text("575a65lsy2b")
  {
    TextOf([31, 33, 31, 0, 32, 31, 11, 18, 24, 28, 1], "575a65lsy2b");
  }

  lemma KinpachiText()
    ensures Letters([22, 22, 30, 2, 31, 4, 27, 34, 26, 4, 31, 33, 31, 0, 32, 31, 11, 18, 24, 28, 1]) ==
            Text("ww4c5e180e575a65lsy2b")
  {
    hide Letters, Text;
    assert [22, 22, 30, 2, 31, 4, 27, 34, 26, 4] + [31, 33, 31, 0, 32, 31, 11, 18, 24, 28, 1] ==
           [22, 22, 30, 2, 31, 4, 27, 34, 26, 4, 31, 33, 31, 0, 32, 31, 11, 18, 24, 28, 1];
    assert "ww4c5e180e" + "575a65lsy2b" == "ww4c5e180e575a65lsy2b";
    KinpachiFirstHalf();
    KinpachiLastHalf();
    LettersJoin([22, 22, 30, 2, 31, 4, 27, 34, 26, 4], [31, 33, 31, 0, 32, 31, 11, 18, 24, 28, 1],
                "ww4c5e180e", "575a65lsy2b");
  }

  lemma KinpachiFront()
    ensures CursorBehind([51, 0x5e74, 98, 0x7d44, 0x91d1, 0x516b, 0x5148, 0x751f], 0x5e74, 2, 0x5e74, 2)
    ensures Begins([51, 0x5e74, 98, 0x7d44, 0x91d1, 0x516b, 0x5148, 0x751f], 0x91d1,
                   [22, 22, 30, 2, 31, 4, 27, 34, 26, 4], 0x5e74, 2, 0x5e74, 2, 67)
  {
    hide Deltas, EncodeLabel, DecodeLabel, Kept, MaxRune, IsVar, Value, Letters, IsBias, NextMet, Begins, Text;
    KinpachiMax();
    KinpachiKept();
    KinpachiCounts();
    KinpachiMet();
    KinpachiDigits0();
    KinpachiDigits1();
    var b: seq<Rune> := [51, 0x5e74, 98, 0x7d44, 0x91d1, 0x516b, 0x5148, 0x751f];
    Started(b, 0x91d1);
    hide CursorBehind;
    HitComes(b, 0x91d1, [], 128, 0, 128, 0, 72, 0x5148, 6, 2, 2,
             [22, 22, 30, 2], 88, 29, [117], 27,
             [22, 22, 30, 2]);
    HitComes(b, 0x91d1, [22, 22, 30, 2], 0x5148, 7, 0x5148, 3, 27, 0x516b, 5, 3, 2,
             [31, 4], 69, 17, [86], 24,
             [22, 22, 30, 2, 31, 4]);
    HitComes(b, 0x91d1, [22, 22, 30, 2, 31, 4], 0x516b, 6, 0x516b, 3, 24, 0x5e74, 1, 4, 1,
             [27, 34, 26, 4], 8341, 1668, [10009, 285], 67,
             [22, 22, 30, 2, 31, 4, 27, 34, 26, 4]);
  }

  // 3 <nen> b <gumi> <kinpachi> <sensei>, in lower case.
  lemma Kinpachi()
    ensures EncodeLabel([51, 0x5e74, 98, 0x7d44, 0x91d1, 0x516b, 0x5148, 0x751f]) ==
            Text("xn--" + "3b-" + "ww4c5e180e575a65lsy2b")
    ensures DecodeLabel(Text("xn--" + "3b-" + "ww4c5e180e575a65lsy2b")) ==
            [51, 0x5e74, 98, 0x7d44, 0x91d1, 0x516b, 0x5148, 0x751f]
  {
    hide Deltas, EncodeLabel, DecodeLabel, Kept, MaxRune, IsVar, Value, Letters, IsBias, NextMet, Begins, Text;
    KinpachiMax();
    KinpachiKept();
    KinpachiCounts();
    KinpachiMet();
    KinpachiText();
    KinpachiDigits1();
    KinpachiDigits2();
    var b: seq<Rune> := [51, 0x5e74, 98, 0x7d44, 0x91d1, 0x516b, 0x5148, 0x751f];
    KinpachiFront();
    hide CursorBehind;
    HitComes(b, 0x91d1, [22, 22, 30, 2, 31, 4, 27, 34, 26, 4], 0x5e74, 2, 0x5e74, 2, 67, 0x751f, 7, 5, 5,
             [31, 33, 31, 0], 17410, 2901, [20311, 580, 16], 82,
             [22, 22, 30, 2, 31, 4, 27, 34, 26, 4, 31, 33, 31, 0]);
    HitComes(b, 0x91d1, [22, 22, 30, 2, 31, 4, 27, 34, 26, 4, 31, 33, 31, 0], 0x751f, 8, 0x751f, 6, 82, 0x7d44, 3, 6, 3,
             [32, 31, 11], 7296, 1042, [8338, 238], 67,
             [22, 22, 30, 2, 31, 4, 27, 34, 26, 4, 31, 33, 31, 0, 32, 31, 11]);
    HitComes(b, 0x91d1, [22, 22, 30, 2, 31, 4, 27, 34, 26, 4, 31, 33, 31, 0, 32, 31, 11], 0x7d44, 4, 0x7d44, 4, 67,
             0x91d1, 4, 7, 4,
             [18, 24, 28, 1], 21044, 2630, [23674, 676, 19], 84,
             [22, 22, 30, 2, 31, 4, 27, 34, 26, 4, 31, 33, 31, 0, 32, 31, 11, 18, 24, 28, 1]);
    Written(b, 0x91d1, [22, 22, 30, 2, 31, 4, 27, 34, 26, 4, 31, 33, 31, 0, 32, 31, 11, 18, 24, 28, 1],
            5, 5, 84, "3b-", "ww4c5e180e575a65lsy2b");
  }

  lemma SupiidoMax()
    ensures MaxRune([0x305d, 0x306e, 0x30b9, 0x30d4, 0x30fc, 0x30c9, 0x3067]) == 0x30fc
  {
  }

  lemma SupiidoKept()
    ensures Kept([0x305d, 0x306e, 0x30b9, 0x30d4, 0x30fc, 0x30c9, 0x3067], 128, 0, 7) == []
    ensures [] == Text("")
  {
  }

  lemma SupiidoCounts()
    ensures |Kept([0x305d, 0x306e, 0x30b9, 0x30d4, 0x30fc, 0x30c9, 0x3067], 0x305d, 0, 7)| == 0
    ensures |Kept([0x305d, 0x306e, 0x30b9, 0x30d4, 0x30fc, 0x30c9, 0x3067], 0x305d, 0, 0)| == 0
    ensures |Kept([0x305d, 0x306e, 0x30b9, 0x30d4, 0x30fc, 0x30c9, 0x3067], 0x3067, 6, 7)| == 1
    ensures |Kept([0x305d, 0x306e, 0x30b9, 0x30d4, 0x30fc, 0x30c9, 0x3067], 0x3067, 6, 6)| == 1
    ensures |Kept([0x305d, 0x306e, 0x30b9, 0x30d4, 0x30fc, 0x30c9, 0x3067], 0x306e, 1, 7)| == 2
    ensures |Kept([0x305d, 0x306e, 0x30b9, 0x30d4, 0x30fc, 0x30c9, 0x3067], 0x306e, 1, 1)| == 1
    ensures |Kept([0x305d, 0x306e, 0x30b9, 0x30d4, 0x30fc, 0x30c9, 0x3067], 0x30b9, 2, 7)| == 3
    ensures |Kept([0x305d, 0x306e, 0x30b9, 0x30d4, 0x30fc, 0x30c9, 0x3067], 0x30b9, 2, 2)| == 2
    ensures |Kept([0x305d, 0x306e, 0x30b9, 0x30d4, 0x30fc, 0x30c9, 0x3067], 0x30c9, 5, 7)| == 4
    ensures |Kept([0x305d, 0x306e, 0x30b9, 0x30d4, 0x30fc, 0x30c9, 0x3067], 0x30c9, 5, 5)| == 3
    ensures |Kept([0x305d, 0x306e, 0x30b9, 0x30d4, 0x30fc, 0x30c9, 0x3067], 0x30d4, 3, 7)| == 5
    ensures |Kept([0x305d, 0x306e, 0x30b9, 0x30d4, 0x30fc, 0x30c9, 0x3067], 0x30d4, 3, 3)| == 3
    ensures |Kept([0x305d, 0x306e, 0x30b9, 0x30d4, 0x30fc, 0x30c9, 0x3067], 0x30fc, 4, 7)| == 6
    ensures |Kept([0x305d, 0x306e, 0x30b9, 0x30d4, 0x30fc, 0x30c9, 0x3067], 0x30fc, 4, 4)| == 4
  {
  }

  lemma SupiidoDigits0()
    ensures IsVar([3, 35, 9], 36, 72) && Value([3, 35, 9], 36, 72) == 12253
    ensures IsBias(17, 12253, 1, true, 17, 17, [34])
    ensures IsVar([20, 0], 36, 17) && Value([20, 0], 36, 17) == 20
    ensures IsBias(10, 20, 2, false, 10, 5, [15])
    ensures IsVar([20], 36, 10) && Value([20], 36, 10) == 20
    ensures IsBias(9, 20, 3, false, 10, 3, [13])
    ensures IsVar([30, 27, 0], 36, 9) && Value([30, 27, 0], 36, 9) == 300
    ensures IsBias(29, 300, 4, false, 150, 37, [187])
  {
  }

  lemma SupiidoDigits1()
    ensures IsVar([22, 2], 36, 29) && Value([22, 2], 36, 29) == 80
    ensures IsBias(20, 80, 5, false, 40, 8, [48])
    ensures IsVar([25, 2], 36, 20) && Value([25, 2], 36, 20) == 65
    ensures IsBias(17, 65, 6, false, 32, 5, [37])
    ensures IsVar([25, 15], 36, 17) && Value([25, 15], 36, 17) == 280
    ensures IsBias(29, 280, 7, false, 140, 20, [160])
  {
  }

  lemma SupiidoMet()
    ensures NextMet([0x305d, 0x306e, 0x30b9, 0x30d4, 0x30fc, 0x30c9, 0x3067], 128, 0, 0x305d, 0)
    ensures NextMet([0x305d, 0x306e, 0x30b9, 0x30d4, 0x30fc, 0x30c9, 0x3067], 0x305d, 1, 0x3067, 6)
    ensures NextMet([0x305d, 0x306e, 0x30b9, 0x30d4, 0x30fc, 0x30c9, 0x3067], 0x3067, 7, 0x306e, 1)
    ensures NextMet([0x305d, 0x306e, 0x30b9, 0x30d4, 0x30fc, 0x30c9, 0x3067], 0x306e, 2, 0x30b9, 2)
    ensures NextMet([0x305d, 0x306e, 0x30b9, 0x30d4, 0x30fc, 0x30c9, 0x3067], 0x30b9, 3, 0x30c9, 5)
    ensures NextMet([0x305d, 0x306e, 0x30b9, 0x30d4, 0x30fc, 0x30c9, 0x3067], 0x30c9, 6, 0x30d4, 3)
    ensures NextMet([0x305d, 0x306e, 0x30b9, 0x30d4, 0x30fc, 0x30c9, 0x3067], 0x30d4, 4, 0x30fc, 4)
  {
  }

  lemma SupiidoText()
    ensures Letters([3, 35, 9, 20, 0, 20, 30, 27, 0, 22, 2, 25, 2, 25, 15]) == Text("d9juau41awczczp")
  {
    TextOf([3, 35, 9, 20, 0, 20, 30], "d9juau4");
    TextOf([27, 0, 22, 2, 25, 2, 25, 15], "1awczczp");
    LettersJoin([3, 35, 9, 20, 0, 20, 30], [27, 0, 22, 2, 25, 2, 25, 15],
                "d9juau4", "1awczczp");
  }

  // <sono> <supiido> <de>.
  lemma Supiido()
    ensures EncodeLabel([0x305d, 0x306e, 0x30b9, 0x30d4, 0x30fc, 0x30c9, 0x3067]) ==
            Text("xn--" + "d9juau41awczczp")
    ensures DecodeLabel(Text("xn--" + "d9juau41awczczp")) ==
            [0x305d, 0x306e, 0x30b9, 0x30d4, 0x30fc, 0x30c9, 0x3067]
  {
    hide Deltas, EncodeLabel, DecodeLabel, Kept, MaxRune, IsVar, Value, Letters, IsBias, NextMet, Begins, Text;
    SupiidoMax();
    SupiidoKept();
    SupiidoCounts();
    SupiidoMet();
    SupiidoText();
    SupiidoDigits0();
    SupiidoDigits1();
    var b: seq<Rune> := [0x305d, 0x306e, 0x30b9, 0x30d4, 0x30fc, 0x30c9, 0x3067];
    Started(b, 0x30fc);
    hide CursorBehind;
    HitComes(b, 0x30fc, [], 128, 0, 128, 0, 72, 0x305d, 0, 0, 0,
             [3, 35, 9], 17, 17, [34], 17,
             [3, 35, 9]);
    HitComes(b, 0x30fc, [3, 35, 9], 0x305d, 1, 0x305d, 1, 17, 0x3067, 6, 1, 1,
             [20, 0], 10, 5, [15], 10,
             [3, 35, 9, 20, 0]);
    HitComes(b, 0x30fc, [3, 35, 9, 20, 0], 0x3067, 7, 0x3067, 2, 10, 0x306e, 1, 2, 1,
             [20], 10, 3, [13], 9,
             [3, 35, 9, 20, 0, 20]);
    HitComes(b, 0x30fc, [3, 35, 9, 20, 0, 20], 0x306e, 2, 0x306e, 2, 9, 0x30b9, 2, 3, 2,
             [30, 27, 0], 150, 37, [187], 29,
             [3, 35, 9, 20, 0, 20, 30, 27, 0]);
    HitComes(b, 0x30fc, [3, 35, 9, 20, 0, 20, 30, 27, 0], 0x30b9, 3, 0x30b9, 3, 29, 0x30c9, 5, 4, 3,
             [22, 2], 40, 8, [48], 20,
             [3, 35, 9, 20, 0, 20, 30, 27, 0, 22, 2]);
    HitComes(b, 0x30fc, [3, 35, 9, 20, 0, 20, 30, 27, 0, 22, 2], 0x30c9, 6, 0x30c9, 4, 20, 0x30d4, 3, 5, 3,
             [25, 2], 32, 5, [37], 17,
             [3, 35, 9, 20, 0, 20, 30, 27, 0, 22, 2, 25, 2]);
    HitComes(b, 0x30fc, [3, 35, 9, 20, 0, 20, 30, 27, 0, 22, 2, 25, 2], 0x30d4, 4, 0x30d4, 4, 17, 0x30fc, 4, 6, 4,
             [25, 15], 140, 20, [160], 29,
             [3, 35, 9, 20, 0, 20, 30, 27, 0, 22, 2, 25, 2, 25, 15]);
    assert "xn--" + "" == "xn--";
    Written(b, 0x30fc, [3, 35, 9, 20, 0, 20, 30, 27, 0, 22, 2, 25, 2, 25, 15],
            5, 5, 29, "", "d9juau41awczczp");
  }

}
