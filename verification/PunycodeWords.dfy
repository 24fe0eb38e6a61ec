/**
 * The punycode coder in 32-bit words (miekg/dns, idn/punycode.go).
 *
 * Code points and deltas are runes of 32 bits, which wrap around. A delta that
 * has become negative makes the encoder panic, and one that has come round to a
 * positive number is written as that number. What Punycode proves over unbounded
 * numbers holds of the words for exactly the labels whose deltas fit.
 */
module PunycodeWords {
  import opened Common
  import opened Punycode

  const WORD := 0x1_0000_0000
  const LIMIT := 0x8000_0000

  // A number in 32 bits with a sign.
  function Wrapped(x: int): (w: int)
    ensures -LIMIT <= w < LIMIT && (w == x <==> -LIMIT <= x < LIMIT)
  {
    (x + LIMIT) % WORD - LIMIT
  }

  type Positive = x: int | 0 < x witness 1

  // One insertion: its delta, how many code points there are with it, and where
  // the decoder's cursor stands before.
  datatype Hit = Hit(delta: nat, points: Positive, cursor: nat)

  // The insertions of the walk from the cell <n, p> on.
  function Hits(b: seq<Rune>, n: Rune, p: nat, nd: int, i: nat, max: int): seq<Hit>
    requires p <= |b| && CursorBehind(b, n, p, nd, i)
    decreases max + 1 - n, |b| - p
  {
    if n > max then []
    else if p == |b| then
      CursorAfterPass(b, n, nd, i);
      Hits(b, n + 1, 0, nd, i, max)
    else
      CursorAfterStep(b, n, p, nd, i);
      if b[p] == n then
        [Hit(Delta(b, n, p, nd, i), |Rebuilt(b, n, p)| + 1, i)] + Hits(b, n, p + 1, n, Before(b, n, p) + 1, max)
      else Hits(b, n, p + 1, nd, i, max)
  }

  function AllHits(b: seq<Rune>): seq<Hit> {
    Hits(b, INITIAL_N, 0, INITIAL_N, 0, MaxRune(b))
  }

  // The digits for the insertions, in unbounded numbers and in words. Sums and
  // products of words are those of the numbers, wrapped; the running delta begins
  // at zero again behind every insertion.
  function DigitsOf(hits: seq<Hit>, bias: nat): seq<Rune> {
    if hits == [] then []
    else
      var h := hits[0];
      PutVar(h.delta, BASE, bias) + DigitsOf(hits[1..], NewBias(h.delta, h.points, h.cursor == 0))
  }

  function DigitsOf32(hits: seq<Hit>, bias: nat): Option<seq<Rune>> {
    if hits == [] then Some([])
    else
      var h, delta := hits[0], Wrapped(hits[0].delta);
      if delta < 0 then None
      else
        match DigitsOf32(hits[1..], NewBias(delta, h.points, h.cursor == 0))
        case None => None
        case Some(rest) => Some(PutVar(delta, BASE, bias) + rest)
  }

  function Front(b: seq<Rune>): seq<Rune> {
    PREFIX + if Basic(b) == [] then [] else Basic(b) + [DELIMITER]
  }

  // The encoder in words; None where it panics.
  function Encode32(b: seq<Rune>): Option<seq<Rune>> {
    if |Basic(b)| == |b| then Some(b)
    else
      match DigitsOf32(AllHits(b), BIAS)
      case None => None
      case Some(digits) => Some(Front(b) + digits)
  }

  // Every delta fits a word.
  predicate DeltasFit(hits: seq<Hit>) {
    forall h <- hits :: h.delta < LIMIT
  }

  // And so does the decoder's cursor behind it.
  predicate CursorsFit(hits: seq<Hit>) {
    forall h <- hits :: h.cursor + h.delta < LIMIT
  }

  // ------------------------------------------------------------- the encoder

  lemma {:induction false} DigitsOfHits(b: seq<Rune>, n: Rune, p: nat, nd: int, i: nat, bias: nat, max: int)
    requires p <= |b| && CursorBehind(b, n, p, nd, i)
    ensures Deltas(b, n, p, nd, i, bias, max) == DigitsOf(Hits(b, n, p, nd, i, max), bias)
    decreases max + 1 - n, |b| - p
  {
    hide PutVar, NewBias, Delta, Kept, CursorBehind;
    if n > max {
    } else if p == |b| {
      CursorAfterPass(b, n, nd, i);
      DigitsOfHits(b, n + 1, 0, nd, i, bias, max);
    } else {
      CursorAfterStep(b, n, p, nd, i);
      if b[p] == n {
        var rest := Hits(b, n, p + 1, n, Before(b, n, p) + 1, max);
        var first := Hit(Delta(b, n, p, nd, i), |Rebuilt(b, n, p)| + 1, i);
        assert ([first] + rest)[1..] == rest;
        DigitsOfHits(b, n, p + 1, n, Before(b, n, p) + 1, NewBias(first.delta, first.points, i == 0), max);
      } else {
        DigitsOfHits(b, n, p + 1, nd, i, bias, max);
      }
    }
  }

  // Digits tell the deltas: other numbers leave other digits, whatever follows.
  lemma DigitsTell(x: nat, y: nat, bias: nat, s: seq<Rune>, t: seq<Rune>)
    requires PutVar(x, BASE, bias) + s == PutVar(y, BASE, bias) + t
    ensures x == y && s == t
  {
    VarRoundTrip(x, BASE, bias, 1, 0, s);
    VarRoundTrip(y, BASE, bias, 1, 0, t);
  }

  lemma {:induction false} Digits32Exactly(hits: seq<Hit>, bias: nat)
    ensures DigitsOf32(hits, bias) == Some(DigitsOf(hits, bias)) <==> DeltasFit(hits)
  {
    hide PutVar, NewBias, Wrapped;
    if hits != [] {
      var h, rest, delta := hits[0], hits[1..], Wrapped(hits[0].delta);
      WrappedIs(h.delta);
      assert DeltasFit(hits) <==> h.delta < LIMIT && DeltasFit(rest);
      if delta >= 0 {
        var bias' := NewBias(delta, h.points, h.cursor == 0);
        Digits32Exactly(rest, bias');
        if DigitsOf32(rest, bias').Some? && DigitsOf32(hits, bias) == Some(DigitsOf(hits, bias)) {
          DigitsTell(delta, h.delta, bias, DigitsOf32(rest, bias').value,
                     DigitsOf(rest, NewBias(h.delta, h.points, h.cursor == 0)));
        }
      }
    }
  }

  lemma WrappedIs(x: nat)
    ensures Wrapped(x) == x <==> x < LIMIT
  {
  }

  /**
   * In words the encoder gives the encoding of a label if and only if no delta
   * outgrows 31 bits.
   */
  lemma Encode32Exactly(b: seq<Rune>)
    ensures Encode32(b) == Some(EncodeLabel(b)) <==> HasExtended(b) ==> DeltasFit(AllHits(b))
  {
    hide DigitsOf32, DigitsOf, Deltas, Hits, Kept, DeltasFit, HasExtended;
    BasicOfLabel(b);
    DigitsOfHits(b, INITIAL_N, 0, INITIAL_N, 0, BIAS, MaxRune(b));
    Digits32Exactly(AllHits(b), BIAS);
    if DigitsOf32(AllHits(b), BIAS).Some? {
      SameBehind(Front(b), DigitsOf32(AllHits(b), BIAS).value, AllDeltas(b));
    }
  }

  lemma SameBehind(a: seq<Rune>, s: seq<Rune>, t: seq<Rune>)
    ensures a + s == a + t <==> s == t
  {
    if a + s == a + t { assert s == (a + s)[|a|..] == t; }
  }

  // ------------------------------------------------------------- the decoder

  // The decoder's cursor stays inside a word.
  predicate LoopFits(b: seq<Rune>, r: Registers)
    decreases |b|
  {
    b == [] ||
    match GetVar(b, BASE, 1, r.i, r.bias)
    case BadDigit => true
    case Got(i', rest) => i' < LIMIT && LoopFits(rest, Inserting(r, i'))
  }

  lemma HitFits(b: seq<Rune>, n: Rune, p: nat, nd: Rune, i: nat, bias: nat, tail: seq<Rune>)
    requires p < |b| && b[p] == n && CursorBehind(b, n, p, nd, i)
    ensures var delta := Delta(b, n, p, nd, i);
            LoopFits(PutVar(delta, BASE, bias) + tail, Registers(nd, i, bias, Rebuilt(b, n, p))) <==>
            && i + delta < LIMIT
            && LoopFits(tail, Registers(n, Before(b, n, p) + 1, NewBias(delta, |Rebuilt(b, n, p)| + 1, i == 0),
                                        Rebuilt(b, n, p + 1)))
  {
    var delta := Delta(b, n, p, nd, i);
    VarIsPlain(delta, BASE, bias);
    VarRoundTrip(delta, BASE, bias, 1, i, tail);
    InsertingAt(b, n, p, nd, i, bias);
  }

  lemma {:induction false} CursorExactly(b: seq<Rune>, n: Rune, p: nat, nd: Rune, i: nat, bias: nat, max: int)
    requires p <= |b| && CursorBehind(b, n, p, nd, i)
    ensures LoopFits(Deltas(b, n, p, nd, i, bias, max), Registers(nd, i, bias, Rebuilt(b, n, p))) <==>
            CursorsFit(Hits(b, n, p, nd, i, max))
    decreases max + 1 - n, |b| - p
  {
    hide Deltas, LoopFits, Kept, PutVar, NewBias, CursorBehind, Delta;
    if n > max {
      NothingFits(b, n, p, nd, i, bias, max);
    } else if p == |b| {
      CursorAfterPass(b, n, nd, i);
      PassUnfolds(b, n, nd, i, bias, max);
      CursorExactly(b, n + 1, 0, nd, i, bias, max);
    } else {
      CursorAfterStep(b, n, p, nd, i);
      CellUnfolds(b, n, p, nd, i, bias, max);
      if b[p] == n {
        var delta := Delta(b, n, p, nd, i);
        var bias' := NewBias(delta, |Rebuilt(b, n, p)| + 1, i == 0);
        HitFits(b, n, p, nd, i, bias, Deltas(b, n, p + 1, n, Before(b, n, p) + 1, bias', max));
        CursorExactly(b, n, p + 1, n, Before(b, n, p) + 1, bias', max);
        FirstFits(Hit(delta, |Rebuilt(b, n, p)| + 1, i), Hits(b, n, p + 1, n, Before(b, n, p) + 1, max));
      } else {
        KeptSame(b, n, p, n, p + 1, |b|);
        CursorExactly(b, n, p + 1, nd, i, bias, max);
      }
    }
  }

  lemma NothingFits(b: seq<Rune>, n: Rune, p: nat, nd: Rune, i: nat, bias: nat, max: int)
    requires p <= |b| && CursorBehind(b, n, p, nd, i) && n > max
    ensures LoopFits(Deltas(b, n, p, nd, i, bias, max), Registers(nd, i, bias, Rebuilt(b, n, p)))
    ensures Hits(b, n, p, nd, i, max) == []
  {
  }

  lemma FirstFits(h: Hit, rest: seq<Hit>)
    ensures CursorsFit([h] + rest) <==> h.cursor + h.delta < LIMIT && CursorsFit(rest)
  {
    assert h in [h] + rest && forall x <- rest :: x in [h] + rest;
  }

  /**
   * The round trip in words: a label without a hyphen is encoded, the decoder's
   * cursor stays inside a word, and the label comes back, if and only if every
   * cursor fits.
   */
  lemma RoundTrip32(b: seq<Rune>)
    requires HasExtended(b) && DELIMITER !in b
    ensures CursorsFit(AllHits(b)) <==>
            && Encode32(b) == Some(EncodeLabel(b)) && DecodeLabel(EncodeLabel(b)) == b
            && EncodeLabel(b) == PREFIX + EncodedTail(b)
            && LoopFits(Digits(EncodedTail(b)), Initially(Literals(EncodedTail(b))))
  {
    hide Deltas, LoopFits, Kept, Hits, EncodeLabel, DecodeLabel, Encode32;
    HyphenFreeExtended(b);
    EncodingOfExtended(b);
    BasicOfLabel(b);
    AllDeltasArePlain(b);
    PartsOfEncoding(Basic(b), AllDeltas(b));
    CursorExactly(b, INITIAL_N, 0, INITIAL_N, 0, BIAS, MaxRune(b));
    Encode32Exactly(b);
  }

  // ------------------------------------------------------- which labels fit

  lemma {:induction false} ShortHitsFit(b: seq<Rune>, n: Rune, p: nat, nd: Rune, i: nat, max: int)
    requires |b| <= WIDEST && INITIAL_N <= nd && max <= MAX_CODE_POINT
    requires p <= |b| && CursorBehind(b, n, p, nd, i)
    ensures CursorsFit(Hits(b, n, p, nd, i, max))
    decreases max + 1 - n, |b| - p
  {
    hide Kept, CursorBehind, Delta;
    if n > max {
    } else if p == |b| {
      CursorAfterPass(b, n, nd, i);
      ShortHitsFit(b, n + 1, 0, nd, i, max);
    } else {
      CursorAfterStep(b, n, p, nd, i);
      if b[p] == n {
        DeltaFitsRune(b, n, p, nd, i);
        CursorIsBehind(b, n, p, nd, i);
        ShortHitsFit(b, n, p + 1, n, Before(b, n, p) + 1, max);
        FirstFits(Hit(Delta(b, n, p, nd, i), |Rebuilt(b, n, p)| + 1, i),
                  Hits(b, n, p + 1, n, Before(b, n, p) + 1, max));
      } else {
        ShortHitsFit(b, n, p + 1, nd, i, max);
      }
    }
  }

  lemma CursorIsBehind(b: seq<Rune>, n: int, p: nat, nd: int, i: nat)
    requires p <= |b| && CursorBehind(b, n, p, nd, i)
    ensures nd <= n
  {
  }

  // Every label of at most 1926 runes fits, and so every label of a DNS name.
  lemma ShortLabelsFit(b: seq<Rune>)
    requires |b| <= WIDEST && forall x <- b :: x <= MAX_CODE_POINT
    ensures CursorsFit(AllHits(b)) && DeltasFit(AllHits(b))
  {
    hide Hits;
    MaxRuneIn(b);
    ShortHitsFit(b, INITIAL_N, 0, INITIAL_N, 0, MaxRune(b));
  }

  lemma {:induction false} MaxRuneIn(b: seq<Rune>)
    requires forall x <- b :: x <= MAX_CODE_POINT
    ensures MaxRune(b) <= MAX_CODE_POINT
  {
    if b != [] {
      assert b[0] in b;
      assert forall x <- b[1..] :: x in b;
      MaxRuneIn(b[1..]);
    }
  }

  // -------------------------------------------------- a label that does not fit

  lemma {:induction false} EmptyHits(b: seq<Rune>, n: Rune, p: nat, nd: int, i: nat, max: int)
    requires p <= |b| && CursorBehind(b, n, p, nd, i) && n <= max && n !in b[p..]
    ensures CursorBehind(b, n + 1, 0, nd, i) && Hits(b, n, p, nd, i, max) == Hits(b, n + 1, 0, nd, i, max)
    decreases |b| - p
  {
    if p == |b| {
      CursorAfterPass(b, n, nd, i);
    } else {
      assert b[p] == b[p..][0] && b[p + 1..] == b[p..][1..];
      CursorAfterStep(b, n, p, nd, i);
      EmptyHits(b, n, p + 1, nd, i, max);
    }
  }

  lemma {:induction false} JumpHits(b: seq<Rune>, n: Rune, m: Rune, nd: int, i: nat, max: int)
    requires n <= m <= max && CursorBehind(b, n, 0, nd, i)
    requires forall q :: 0 <= q < |b| ==> b[q] < n || m <= b[q]
    ensures CursorBehind(b, m, 0, nd, i) && Hits(b, n, 0, nd, i, max) == Hits(b, m, 0, nd, i, max)
    decreases m - n
  {
    if n < m {
      EmptyHits(b, n, 0, nd, i, max);
      JumpHits(b, n + 1, m, nd, i, max);
    }
  }

  lemma {:induction false} MissedHits(b: seq<Rune>, n: Rune, p: nat, to: nat, nd: int, i: nat, max: int)
    requires p <= to <= |b| && CursorBehind(b, n, p, nd, i) && n <= max && n !in b[p..to]
    ensures CursorBehind(b, n, to, nd, i) && Hits(b, n, p, nd, i, max) == Hits(b, n, to, nd, i, max)
    decreases |b| - p
  {
    if p < to {
      assert b[p] == b[p..to][0] && b[p + 1..to] == b[p..to][1..];
      CursorAfterStep(b, n, p, nd, i);
      MissedHits(b, n, p + 1, to, nd, i, max);
    }
  }

  // So many letters a, and the last code point of all behind them.
  function LongLabel(n: nat): (b: seq<Rune>)
    ensures |b| == n + 1 && b[n] == MAX_CODE_POINT && forall q :: 0 <= q < n ==> b[q] == 97
  {
    seq(n, _ => 97) + [MAX_CODE_POINT]
  }

  lemma LongLabelDelta(n: nat)
    ensures var b, m := LongLabel(n), MAX_CODE_POINT;
            && CursorBehind(b, m, n, INITIAL_N, 0)
            && Delta(b, m, n, INITIAL_N, 0) == (n + 1) * (MAX_CODE_POINT - INITIAL_N) + n
            && |Rebuilt(b, m, n)| == n
  {
    var b, m := LongLabel(n), MAX_CODE_POINT;
    KeptAll(b, m, n, n);
    assert !Passed(b, m, n, n);
    assert Rebuilt(b, m, n) == Kept(b, m, n, n) + [];
  }

  lemma LongLabelHits(n: nat)
    ensures AllHits(LongLabel(n)) == [Hit((n + 1) * (MAX_CODE_POINT - INITIAL_N) + n, n + 1, 0)]
  {
    var b, m := LongLabel(n), MAX_CODE_POINT;
    LongLabelDelta(n);
    MaxRuneOf(b, n);
    JumpHits(b, INITIAL_N, m, INITIAL_N, 0, m);
    assert m !in b[0..n];
    MissedHits(b, m, 0, n, INITIAL_N, 0, m);
    CursorAfterStep(b, m, n, INITIAL_N, 0);
    CursorAfterPass(b, m, m, Before(b, m, n) + 1);
    assert Hits(b, m, n + 1, m, Before(b, m, n) + 1, m) == [];
  }

  lemma MaxRuneOf(b: seq<Rune>, n: nat)
    requires n < |b| && b[n] == MAX_CODE_POINT && forall x <- b :: x <= MAX_CODE_POINT
    ensures MaxRune(b) == MAX_CODE_POINT
  {
    MaxRuneIn(b);
  }

  /**
   * The encoder panics on 1927 to 3854 letters a with the last code point behind
   * them: the one delta does not fit, and the wrapped one is negative.
   */
  lemma LongLabelPanics(n: nat)
    requires 1927 <= n <= 3854
    ensures Encode32(LongLabel(n)) == None && Reversible(LongLabel(n))
  {
    var b := LongLabel(n);
    LongLabelHits(n);
    hide Hits, Basic;
    assert MAX_CODE_POINT in b;
    BasicOfLabel(b);
    var delta := (n + 1) * (MAX_CODE_POINT - INITIAL_N) + n;
    assert Wrapped(delta) == delta - WORD < 0;
  }
}
