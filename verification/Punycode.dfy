/**
  Punycode as the idn package implements it (sections 3 and 6 of RFC 3492).

  A label is its sequence of code points; the conversion between code points
  and UTF-8 bytes at both ends is not part of the model.  Encode and Decode are
  the two loops of the source.  Encode is specified by Deltas, which states
  each delta from the decoder's side (how far its cursor <n, i> has to travel
  to the next insertion) and not from the encoder's running counter.
 */
module Punycode {
  type Rune = x: int | 0 <= x

  const MIN := 1
  const MAX := 26
  const SKEW := 38
  const BASE := 36
  const BIAS := 72
  const INITIAL_N := 128
  const DAMP := 700
  const DELIMITER: Rune := 45
  const PREFIX: seq<Rune> := [120, 110, 45, 45]
  const ERR_DIGIT := 0xffff

  // ------------------------------------------------------ digits and weights

  function DigitVal(code: Rune): Rune {
    if 65 <= code <= 90 then code - 65
    else if 97 <= code <= 122 then code - 97
    else if 48 <= code <= 57 then code - 48 + 26
    else ERR_DIGIT
  }

  function LetterCode(digit: Rune): Rune
    requires digit < BASE
  {
    if digit <= 25 then digit + 97 else digit - 26 + 48
  }

  predicate PlainDigit(x: Rune) {
    x < INITIAL_N && x != DELIMITER
  }

  lemma LetterRoundTrip(digit: Rune)
    requires digit < BASE
    ensures DigitVal(LetterCode(digit)) == digit && PlainDigit(LetterCode(digit))
  {
  }

  // The threshold of the k-th digit.
  function Threshold(k: int, bias: int): (t: int)
    ensures MIN <= t <= MAX
  {
    if k <= bias then MIN else if k >= bias + MAX then MAX else k - bias
  }

  function Damped(delta: nat, numpoints: nat, first: bool): nat
    requires numpoints > 0
  {
    var d := if first then delta / DAMP else delta / 2;
    d + d / numpoints
  }

  function AdaptFrom(delta: nat, k: nat): nat {
    if delta > (BASE - MIN) * MAX / 2 then AdaptFrom(delta / (BASE - MIN), k + BASE)
    else k + (BASE - MIN + 1) * delta / (delta + SKEW)
  }

  method Adapt(delta: nat, numpoints: nat, first: bool) returns (bias: nat)
    requires numpoints > 0
    ensures bias == AdaptFrom(Damped(delta, numpoints, first), 0)
  {
    var d := if first then delta / DAMP else delta / 2;
    var k: nat := 0;
    d := d + d / numpoints;
    while d > (BASE - MIN) * MAX / 2
      invariant d >= 0
      invariant AdaptFrom(d, k) == AdaptFrom(Damped(delta, numpoints, first), 0)
    {
      d := d / (BASE - MIN);
      k := k + BASE;
    }
    return k + (BASE - MIN + 1) * d / (d + SKEW);
  }

  function NewBias(delta: nat, numpoints: nat, first: bool): nat
    requires numpoints > 0
  {
    AdaptFrom(Damped(delta, numpoints, first), 0)
  }

  // ------------------------------------------- generalized variable integers

  // The least significant digit of q under threshold t, and what is left.
  function LowDigit(q: nat, t: nat): (r: nat)
    requires MIN <= t <= MAX && t <= q
    ensures t <= r < BASE
  {
    t + (q - t) % (BASE - t)
  }

  function HighPart(q: nat, t: nat): (r: nat)
    requires MIN <= t <= MAX && t <= q
    ensures r < q && q == LowDigit(q, t) + r * (BASE - t)
  {
    QuotientBound(q - t, BASE - t);
    (q - t) / (BASE - t)
  }

  lemma QuotientBound(x: nat, m: nat)
    requires m > 0
    ensures 0 <= x / m <= x && x == x % m + (x / m) * m
  {
    AtLeastFactor(x / m, m);
  }

  lemma {:induction false} AtLeastFactor(d: int, m: nat)
    requires m > 0
    ensures 0 <= d ==> d <= d * m
  {
    if m > 1 {
      AtLeastFactor(d, m - 1);
      assert d * m == d * (m - 1) + d;
    }
  }

  // The digits of q, from the digit with index k / BASE on.
  function PutVar(q: nat, k: nat, bias: nat): seq<Rune> {
    var t := Threshold(k, bias);
    if q < t then [LetterCode(q)]
    else [LetterCode(LowDigit(q, t))] + PutVar(HighPart(q, t), k + BASE, bias)
  }

  // Reads digits into acc until one is below its threshold or the input ends;
  // None when a byte is no digit.
  datatype VarResult = BadDigit | Got(value: nat, rest: seq<Rune>)

  function NextWeight(w: nat, t: nat): nat
    requires MIN <= t <= MAX
  {
    w * (BASE - t)
  }

  function Worth(digit: nat, w: nat): nat {
    digit * w
  }

  function GetVar(b: seq<Rune>, k: nat, w: nat, acc: nat, bias: nat): (r: VarResult)
    ensures r.Got? ==> |r.rest| <= |b| && (b != [] ==> |r.rest| < |b|) && acc <= r.value
    decreases |b|
  {
    if b == [] then Got(acc, [])
    else
      var digit := DigitVal(b[0]);
      if digit == ERR_DIGIT then BadDigit
      else
        var acc' := acc + Worth(digit, w);
        var t := Threshold(k, bias);
        if digit < t then Got(acc', b[1..]) else GetVar(b[1..], k + BASE, NextWeight(w, t), acc', bias)
  }

  lemma SplitDigit(q: nat, t: nat, w: nat)
    requires MIN <= t <= MAX && t <= q
    ensures Worth(LowDigit(q, t), w) + Worth(HighPart(q, t), NextWeight(w, t)) == Worth(q, w)
  {
    var m, low, high := BASE - t, LowDigit(q, t), HighPart(q, t);
    assert high * (w * m) == (high * m) * w;
    assert low * w + (high * m) * w == (low + high * m) * w;
  }

  lemma GetVarStep(digit: nat, rest: seq<Rune>, k: nat, w: nat, acc: nat, bias: nat)
    requires Threshold(k, bias) <= digit < BASE
    ensures GetVar([LetterCode(digit)] + rest, k, w, acc, bias)
         == GetVar(rest, k + BASE, NextWeight(w, Threshold(k, bias)), acc + Worth(digit, w), bias)
  {
    LetterRoundTrip(digit);
    assert ([LetterCode(digit)] + rest)[1..] == rest;
  }

  lemma GetVarLast(digit: nat, rest: seq<Rune>, k: nat, w: nat, acc: nat, bias: nat)
    requires digit < Threshold(k, bias)
    ensures GetVar([LetterCode(digit)] + rest, k, w, acc, bias) == Got(acc + Worth(digit, w), rest)
  {
    LetterRoundTrip(digit);
    assert ([LetterCode(digit)] + rest)[1..] == rest;
  }

  // The digits of a delta are self-delimiting: whatever follows them, they
  // read back as that delta and nothing more is consumed.
  lemma {:induction false} VarRoundTrip(q: nat, k: nat, bias: nat, w: nat, acc: nat, tail: seq<Rune>)
    ensures GetVar(PutVar(q, k, bias) + tail, k, w, acc, bias) == Got(acc + Worth(q, w), tail)
    decreases q
  {
    var t := Threshold(k, bias);
    if q < t {
      assert PutVar(q, k, bias) == [LetterCode(q)];
      GetVarLast(q, tail, k, w, acc, bias);
    } else {
      var rest := HighPart(q, t);
      VarRoundTrip(rest, k + BASE, bias, NextWeight(w, t), acc + Worth(LowDigit(q, t), w), tail);
      VarRoundTripStep(q, k, bias, w, acc, tail);
    }
  }

  lemma VarRoundTripStep(q: nat, k: nat, bias: nat, w: nat, acc: nat, tail: seq<Rune>)
    requires Threshold(k, bias) <= q
    ensures
      var t := Threshold(k, bias);
      var rest := HighPart(q, t);
      var w', acc' := NextWeight(w, t), acc + Worth(LowDigit(q, t), w);
      && GetVar(PutVar(q, k, bias) + tail, k, w, acc, bias)
         == GetVar(PutVar(rest, k + BASE, bias) + tail, k + BASE, w', acc', bias)
      && acc' + Worth(rest, w') == acc + Worth(q, w)
  {
    var t := Threshold(k, bias);
    var digit, rest := LowDigit(q, t), HighPart(q, t);
    SplitDigit(q, t, w);
    assert PutVar(q, k, bias) + tail == [LetterCode(digit)] + (PutVar(rest, k + BASE, bias) + tail);
    GetVarStep(digit, PutVar(rest, k + BASE, bias) + tail, k, w, acc, bias);
  }

  lemma {:induction false} VarIsPlain(q: nat, k: nat, bias: nat)
    ensures |PutVar(q, k, bias)| > 0 && forall x :: x in PutVar(q, k, bias) ==> PlainDigit(x)
    decreases q
  {
    var t := Threshold(k, bias);
    if q < t {
      LetterRoundTrip(q);
    } else {
      LetterRoundTrip(LowDigit(q, t));
      VarIsPlain(HighPart(q, t), k + BASE, bias);
    }
  }

  // ---------------------------------------------- the label, cell after cell

  // The encoder visits the cells <n, p> (code point n, position p) in order.
  // Kept is what the decoder has rebuilt of b[..len] when it stands at <n, p>:
  // the smaller code points, and those equal to n before p.
  predicate Passed(b: seq<Rune>, n: int, p: nat, q: nat)
    requires q < |b|
  {
    b[q] < n || (b[q] == n && q < p)
  }

  function Kept(b: seq<Rune>, n: int, p: nat, len: nat): (r: seq<Rune>)
    requires len <= |b|
    ensures |r| <= len
  {
    if len == 0 then []
    else Kept(b, n, p, len - 1) + (if Passed(b, n, p, len - 1) then [b[len - 1]] else [])
  }

  function Rebuilt(b: seq<Rune>, n: int, p: nat): (r: seq<Rune>)
    ensures |r| <= |b|
  {
    Kept(b, n, p, |b|)
  }

  // The code points up to n before position p: where the decoder inserts n.
  function Before(b: seq<Rune>, n: int, p: nat): nat
    requires p <= |b|
  {
    |Kept(b, n, p, p)|
  }

  lemma {:induction false} KeptGrows(b: seq<Rune>, n: int, p: nat, len: nat, len': nat)
    requires len <= len' <= |b|
    ensures Kept(b, n, p, len) <= Kept(b, n, p, len')
    decreases len'
  {
    if len < len' {
      KeptGrows(b, n, p, len, len' - 1);
    }
  }

  // The same cells have been passed, so the same part is rebuilt.
  lemma {:induction false} KeptSame(b: seq<Rune>, n: int, p: nat, n': int, p': nat, len: nat)
    requires len <= |b|
    requires forall q :: 0 <= q < len ==> (Passed(b, n, p, q) <==> Passed(b, n', p', q))
    ensures Kept(b, n, p, len) == Kept(b, n', p', len)
  {
    if len > 0 {
      KeptSame(b, n, p, n', p', len - 1);
    }
  }

  lemma {:induction false} KeptAll(b: seq<Rune>, n: int, p: nat, len: nat)
    requires len <= |b| && forall q :: 0 <= q < len ==> Passed(b, n, p, q)
    ensures Kept(b, n, p, len) == b[..len]
  {
    if len > 0 {
      KeptAll(b, n, p, len - 1);
      assert b[..len] == b[..len - 1] + [b[len - 1]];
    }
  }

  // If nothing is missing, every code point has been passed.
  lemma {:induction false} KeptFull(b: seq<Rune>, n: int, p: nat, len: nat)
    requires len <= |b| && |Kept(b, n, p, len)| == len
    ensures forall q :: 0 <= q < len ==> Passed(b, n, p, q)
  {
    if len > 0 {
      KeptFull(b, n, p, len - 1);
    }
  }

  function Inserted(s: seq<Rune>, i: nat, x: Rune): seq<Rune>
    requires i <= |s|
  {
    s[..i] + [x] + s[i..]
  }

  // Passing a cell that holds n inserts n into what is rebuilt.
  lemma {:induction false} PassInserts(b: seq<Rune>, n: Rune, p: nat, len: nat)
    requires p < len <= |b| && b[p] == n
    ensures Before(b, n, p) <= |Kept(b, n, p, len)|
    ensures Kept(b, n, p + 1, len) == Inserted(Kept(b, n, p, len), Before(b, n, p), n)
  {
    KeptGrows(b, n, p, p, len);
    if len == p + 1 {
      KeptSame(b, n, p + 1, n, p, p);
      InsertedLast(Kept(b, n, p, p), n);
    } else {
      PassInserts(b, n, p, len - 1);
      KeptGrows(b, n, p, p, len - 1);
      hide Inserted;
      assert Passed(b, n, p, len - 1) == Passed(b, n, p + 1, len - 1);
      InsertedGrows(Kept(b, n, p, len - 1), Before(b, n, p), n, b[len - 1]);
    }
  }

  lemma InsertedLast(s: seq<Rune>, x: Rune)
    ensures Inserted(s, |s|, x) == s + [x]
  {
  }

  lemma InsertedGrows(s: seq<Rune>, i: nat, x: Rune, y: Rune)
    requires i <= |s|
    ensures Inserted(s + [y], i, x) == Inserted(s, i, x) + [y]
    ensures Inserted(s + [], i, x) == Inserted(s, i, x) + []
  {
    assert s + [] == s;
  }

  lemma BeforeNext(b: seq<Rune>, n: int, p: nat)
    requires p < |b|
    ensures Before(b, n, p + 1) == Before(b, n, p) + (if b[p] <= n then 1 else 0)
  {
    KeptSame(b, n, p + 1, n, p, p);
  }

  lemma BeforeBound(b: seq<Rune>, n: int, p: nat)
    requires p <= |b|
    ensures Before(b, n, p) <= |Rebuilt(b, n, p)|
    ensures p == |b| ==> Before(b, n, p) == |Rebuilt(b, n, p)|
  {
    KeptGrows(b, n, p, p, |b|);
  }

  // ------------------------------------------------ the decoder's delta walk

  // The decoder's cursor <nd, i> has not run past the cell <n, p>.
  predicate CursorBehind(b: seq<Rune>, n: int, p: nat, nd: int, i: nat)
    requires p <= |b|
  {
    nd <= n && i <= |Rebuilt(b, n, p)| && (nd == n ==> i <= Before(b, n, p))
  }

  // How far the cursor has to travel to insert at <n, p>.
  function Delta(b: seq<Rune>, n: int, p: nat, nd: int, i: nat): nat
    requires p <= |b| && CursorBehind(b, n, p, nd, i)
  {
    CursorTravels(|Rebuilt(b, n, p)|, n - nd, i);
    (|Rebuilt(b, n, p)| + 1) * (n - nd) + Before(b, n, p) - i
  }

  lemma CursorTravels(h: nat, d: nat, i: nat)
    requires i <= h
    ensures d > 0 ==> (h + 1) * d >= i
  {
    if d > 0 {
      AtLeastFactor(h + 1, d);
    }
  }

  lemma CursorAfterStep(b: seq<Rune>, n: int, p: nat, nd: int, i: nat)
    requires p < |b| && CursorBehind(b, n, p, nd, i)
    ensures b[p] == n ==> CursorBehind(b, n, p + 1, n, Before(b, n, p) + 1)
    ensures b[p] != n ==> CursorBehind(b, n, p + 1, nd, i)
  {
    BeforeNext(b, n, p);
    BeforeBound(b, n, p + 1);
    if b[p] != n {
      KeptSame(b, n, p, n, p + 1, |b|);
    }
  }

  lemma CursorAfterPass(b: seq<Rune>, n: int, nd: int, i: nat)
    requires CursorBehind(b, n, |b|, nd, i)
    ensures CursorBehind(b, n + 1, 0, nd, i) && Rebuilt(b, n + 1, 0) == Rebuilt(b, n, |b|)
  {
    KeptSame(b, n, |b|, n + 1, 0, |b|);
  }

  // The digits for all insertions from the cell <n, p> on.
  function Deltas(b: seq<Rune>, n: Rune, p: nat, nd: int, i: nat, bias: nat, max: int): seq<Rune>
    requires p <= |b| && CursorBehind(b, n, p, nd, i)
    decreases max + 1 - n, |b| - p
  {
    if n > max then []
    else if p == |b| then
      CursorAfterPass(b, n, nd, i);
      Deltas(b, n + 1, 0, nd, i, bias, max)
    else
      CursorAfterStep(b, n, p, nd, i);
      if b[p] == n then
        var delta := Delta(b, n, p, nd, i);
        PutVar(delta, BASE, bias) +
          Deltas(b, n, p + 1, n, Before(b, n, p) + 1, NewBias(delta, |Rebuilt(b, n, p)| + 1, i == 0), max)
      else Deltas(b, n, p + 1, nd, i, bias, max)
  }

  // Passes over code points that do not occur emit nothing.
  lemma {:induction false} EmptyPass(b: seq<Rune>, n: Rune, p: nat, nd: int, i: nat, bias: nat, max: int)
    requires p <= |b| && CursorBehind(b, n, p, nd, i) && n <= max && n !in b[p..]
    ensures CursorBehind(b, n + 1, 0, nd, i)
    ensures Deltas(b, n, p, nd, i, bias, max) == Deltas(b, n + 1, 0, nd, i, bias, max)
    decreases |b| - p
  {
    if p == |b| {
      CursorAfterPass(b, n, nd, i);
    } else {
      assert b[p] == b[p..][0] && b[p + 1..] == b[p..][1..];
      CursorAfterStep(b, n, p, nd, i);
      EmptyPass(b, n, p + 1, nd, i, bias, max);
    }
  }

  lemma {:induction false} Jump(b: seq<Rune>, n: Rune, m: Rune, nd: int, i: nat, bias: nat, max: int)
    requires n <= m <= max && CursorBehind(b, n, 0, nd, i)
    requires forall q :: 0 <= q < |b| ==> b[q] < n || m <= b[q]
    ensures Rebuilt(b, n, 0) == Rebuilt(b, m, 0) && CursorBehind(b, m, 0, nd, i)
    ensures Deltas(b, n, 0, nd, i, bias, max) == Deltas(b, m, 0, nd, i, bias, max)
    decreases m - n
  {
    if n < m {
      EmptyPass(b, n, 0, nd, i, bias, max);
      Jump(b, n + 1, m, nd, i, bias, max);
      KeptSame(b, n, 0, m, 0, |b|);
    }
  }

  function MaxRune(b: seq<Rune>): (m: int)
    ensures forall q :: 0 <= q < |b| ==> b[q] <= m
  {
    if b == [] then 0
    else
      var m := MaxRune(b[1..]);
      assert forall q :: 0 < q < |b| ==> b[q] == b[1..][q - 1];
      if b[0] > m then b[0] else m
  }

  // The basic code points of a label, in order.
  function Basic(b: seq<Rune>): seq<Rune> {
    Rebuilt(b, INITIAL_N, 0)
  }

  function AllDeltas(b: seq<Rune>): seq<Rune> {
    Deltas(b, INITIAL_N, 0, INITIAL_N, 0, BIAS, MaxRune(b))
  }

  function EncodeLabel(b: seq<Rune>): seq<Rune> {
    var basic := Basic(b);
    if |basic| == |b| then b
    else PREFIX + (if basic == [] then [] else basic + [DELIMITER]) + AllDeltas(b)
  }

  // ------------------------------------------------------------- the decoder

  datatype Decoded = Malformed | Label(runes: seq<Rune>)

  // The decoder's registers between two deltas.
  datatype Registers = Registers(n: Rune, i: nat, bias: nat, out: seq<Rune>)

  // After reading a delta that moves i to i': split i' into code point and
  // position, and insert.
  function Inserting(r: Registers, i': nat): Registers
    requires r.i <= i'
  {
    var ln := |r.out| + 1;
    Registers(r.n + i' / ln, i' % ln + 1, NewBias(i' - r.i, ln, r.i == 0), Inserted(r.out, i' % ln, r.n + i' / ln))
  }

  function DecodeLoop(b: seq<Rune>, r: Registers): Decoded
    decreases |b|
  {
    if b == [] then Label(r.out)
    else
      match GetVar(b, BASE, 1, r.i, r.bias)
      case BadDigit => Malformed
      case Got(i', rest) => DecodeLoop(rest, Inserting(r, i'))
  }

  function Initially(literals: seq<Rune>): Registers {
    Registers(INITIAL_N, 0, BIAS, literals)
  }

  // The position of the first delimiter, or the length.
  function FirstDelimiter(b: seq<Rune>): (pos: nat)
    ensures pos <= |b|
    ensures pos < |b| ==> b[pos] == DELIMITER
    ensures DELIMITER !in b[..pos]
  {
    if b == [] || b[0] == DELIMITER then 0
    else
      var pos := 1 + FirstDelimiter(b[1..]);
      assert b[..pos] == [b[0]] + b[1..][..pos - 1];
      pos
  }

  // What the decoder takes for literal code points, and for digits.
  function Literals(b: seq<Rune>): seq<Rune> {
    var pos := FirstDelimiter(b);
    if pos < |b| then b[..pos] else []
  }

  function Digits(b: seq<Rune>): seq<Rune> {
    var pos := FirstDelimiter(b);
    if pos < |b| then b[pos + 1..] else b
  }

  function DecodeLabel(src: seq<Rune>): seq<Rune> {
    if !(PREFIX <= src) then src
    else
      var b := src[|PREFIX|..];
      if Digits(b) == [] then src
      else
        match DecodeLoop(Digits(b), Initially(Literals(b)))
        case Malformed => src
        case Label(out) => out
  }

  // -------------------------------------------------------------- round trip

  lemma CursorDivMod(h: nat, d: nat, c: nat)
    requires c <= h
    ensures ((h + 1) * d + c) / (h + 1) == d && ((h + 1) * d + c) % (h + 1) == c
  {
    var m := h + 1;
    var x := m * d + c;
    assert x == m * (x / m) + x % m;
    QuotientUnique(m, d, c, x / m, x % m);
  }

  lemma QuotientUnique(m: nat, d: int, c: nat, d': int, c': nat)
    requires c < m && c' < m && m * d + c == m * d' + c'
    ensures d == d' && c == c'
  {
    assert m * (d - d') == c' - c;
    if d > d' {
      AtLeastFactor(m, d - d');
    } else if d < d' {
      AtLeastFactor(m, d' - d);
    }
  }

  // One delta carries the decoder to exactly the cell it was made for.
  lemma DecodeOne(b: seq<Rune>, n: Rune, p: nat, nd: Rune, i: nat, bias: nat, tail: seq<Rune>)
    requires p < |b| && b[p] == n && CursorBehind(b, n, p, nd, i)
    ensures
      var delta := Delta(b, n, p, nd, i);
      DecodeLoop(PutVar(delta, BASE, bias) + tail, Registers(nd, i, bias, Rebuilt(b, n, p)))
      == DecodeLoop(tail, Registers(n, Before(b, n, p) + 1, NewBias(delta, |Rebuilt(b, n, p)| + 1, i == 0),
                                    Rebuilt(b, n, p + 1)))
  {
    var delta := Delta(b, n, p, nd, i);
    VarIsPlain(delta, BASE, bias);
    VarRoundTrip(delta, BASE, bias, 1, i, tail);
    InsertingAt(b, n, p, nd, i, bias);
  }

  lemma InsertingAt(b: seq<Rune>, n: Rune, p: nat, nd: Rune, i: nat, bias: nat)
    requires p < |b| && b[p] == n && CursorBehind(b, n, p, nd, i)
    ensures
      var delta := Delta(b, n, p, nd, i);
      Inserting(Registers(nd, i, bias, Rebuilt(b, n, p)), i + delta)
      == Registers(n, Before(b, n, p) + 1, NewBias(delta, |Rebuilt(b, n, p)| + 1, i == 0), Rebuilt(b, n, p + 1))
  {
    BeforeBound(b, n, p);
    CursorDivMod(|Rebuilt(b, n, p)|, n - nd, Before(b, n, p));
    PassInserts(b, n, p, |b|);
  }

  // Encoder and decoder stay in step from any cell to the end of the walk.
  lemma {:induction false} DecodeDeltas(b: seq<Rune>, n: Rune, p: nat, nd: Rune, i: nat, bias: nat, max: int)
    requires p <= |b| && CursorBehind(b, n, p, nd, i)
    requires forall q :: 0 <= q < |b| ==> b[q] <= max
    ensures DecodeLoop(Deltas(b, n, p, nd, i, bias, max), Registers(nd, i, bias, Rebuilt(b, n, p))) == Label(b)
    decreases max + 1 - n, |b| - p
  {
    hide Deltas, DecodeLoop, Kept, PutVar, NewBias, CursorBehind;
    if n > max {
      WalkEnds(b, n, p, nd, i, bias, max);
    } else if p == |b| {
      CursorAfterPass(b, n, nd, i);
      PassUnfolds(b, n, nd, i, bias, max);
      DecodeDeltas(b, n + 1, 0, nd, i, bias, max);
    } else {
      CursorAfterStep(b, n, p, nd, i);
      CellUnfolds(b, n, p, nd, i, bias, max);
      if b[p] == n {
        var delta := Delta(b, n, p, nd, i);
        var bias' := NewBias(delta, |Rebuilt(b, n, p)| + 1, i == 0);
        DecodeOne(b, n, p, nd, i, bias, Deltas(b, n, p + 1, n, Before(b, n, p) + 1, bias', max));
        DecodeDeltas(b, n, p + 1, n, Before(b, n, p) + 1, bias', max);
      } else {
        KeptSame(b, n, p, n, p + 1, |b|);
        DecodeDeltas(b, n, p + 1, nd, i, bias, max);
      }
    }
  }

  lemma WalkEnds(b: seq<Rune>, n: Rune, p: nat, nd: Rune, i: nat, bias: nat, max: int)
    requires p <= |b| && CursorBehind(b, n, p, nd, i) && n > max
    requires forall q :: 0 <= q < |b| ==> b[q] <= max
    ensures DecodeLoop(Deltas(b, n, p, nd, i, bias, max), Registers(nd, i, bias, Rebuilt(b, n, p))) == Label(b)
  {
    KeptAll(b, n, p, |b|);
    assert b[..|b|] == b;
  }

  lemma PassUnfolds(b: seq<Rune>, n: Rune, nd: int, i: nat, bias: nat, max: int)
    requires CursorBehind(b, n, |b|, nd, i) && n <= max
    ensures CursorBehind(b, n + 1, 0, nd, i)
    ensures Deltas(b, n, |b|, nd, i, bias, max) == Deltas(b, n + 1, 0, nd, i, bias, max)
  {
    CursorAfterPass(b, n, nd, i);
  }

  lemma CellUnfolds(b: seq<Rune>, n: Rune, p: nat, nd: int, i: nat, bias: nat, max: int)
    requires p < |b| && CursorBehind(b, n, p, nd, i) && n <= max
    ensures b[p] == n ==>
              && CursorBehind(b, n, p + 1, n, Before(b, n, p) + 1)
              && var delta := Delta(b, n, p, nd, i);
                 Deltas(b, n, p, nd, i, bias, max) ==
                 PutVar(delta, BASE, bias) +
                   Deltas(b, n, p + 1, n, Before(b, n, p) + 1, NewBias(delta, |Rebuilt(b, n, p)| + 1, i == 0), max)
    ensures b[p] != n ==>
              && CursorBehind(b, n, p + 1, nd, i)
              && Deltas(b, n, p, nd, i, bias, max) == Deltas(b, n, p + 1, nd, i, bias, max)
  {
    hide PutVar, NewBias, Kept;
    CursorAfterStep(b, n, p, nd, i);
  }

  lemma {:induction false} DeltasArePlain(b: seq<Rune>, n: Rune, p: nat, nd: int, i: nat, bias: nat, max: int)
    requires p <= |b| && CursorBehind(b, n, p, nd, i)
    ensures forall x :: x in Deltas(b, n, p, nd, i, bias, max) ==> PlainDigit(x)
    ensures (exists q :: 0 <= q < |b| && b[q] <= max && !Passed(b, n, p, q)) ==> Deltas(b, n, p, nd, i, bias, max) != []
    decreases max + 1 - n, |b| - p
  {
    if n <= max && p == |b| {
      CursorAfterPass(b, n, nd, i);
      assert forall q :: 0 <= q < |b| ==> (Passed(b, n, p, q) <==> Passed(b, n + 1, 0, q));
      DeltasArePlain(b, n + 1, 0, nd, i, bias, max);
    } else if n <= max {
      CursorAfterStep(b, n, p, nd, i);
      if b[p] == n {
        var delta := Delta(b, n, p, nd, i);
        VarIsPlain(delta, BASE, bias);
        DeltasArePlain(b, n, p + 1, n, Before(b, n, p) + 1, NewBias(delta, |Rebuilt(b, n, p)| + 1, i == 0), max);
      } else {
        assert forall q :: 0 <= q < |b| ==> (Passed(b, n, p, q) <==> Passed(b, n, p + 1, q));
        DeltasArePlain(b, n, p + 1, nd, i, bias, max);
      }
    }
  }

  // Every consumed byte was a digit, and the rest is a suffix.
  lemma {:induction false} GetVarConsumes(b: seq<Rune>, k: nat, w: nat, acc: nat, bias: nat)
    ensures GetVar(b, k, w, acc, bias).BadDigit? ==> exists x :: x in b && DigitVal(x) == ERR_DIGIT
    ensures GetVar(b, k, w, acc, bias).Got? ==>
      forall x :: x in b && DigitVal(x) == ERR_DIGIT ==> x in GetVar(b, k, w, acc, bias).rest
    ensures GetVar(b, k, w, acc, bias).Got? ==> forall x :: x in GetVar(b, k, w, acc, bias).rest ==> x in b
    decreases |b|
  {
    if b != [] && DigitVal(b[0]) != ERR_DIGIT && DigitVal(b[0]) >= Threshold(k, bias) {
      var t := Threshold(k, bias);
      GetVarConsumes(b[1..], k + BASE, NextWeight(w, t), acc + Worth(DigitVal(b[0]), w), bias);
    }
    assert b != [] ==> b == [b[0]] + b[1..];
  }

  // The decoder fails exactly on bytes that are no digits.
  lemma {:induction false} MalformedExactly(b: seq<Rune>, r: Registers)
    ensures DecodeLoop(b, r).Malformed? <==> exists x :: x in b && DigitVal(x) == ERR_DIGIT
    decreases |b|
  {
    GetVarConsumes(b, BASE, 1, r.i, r.bias);
    var g := GetVar(b, BASE, 1, r.i, r.bias);
    if b != [] && g.Got? {
      MalformedExactly(g.rest, Inserting(r, g.value));
    }
  }

  predicate HasExtended(s: seq<Rune>) {
    exists x :: x in s && x >= INITIAL_N
  }

  lemma InsertedHas(s: seq<Rune>, i: nat, x: Rune)
    requires i <= |s|
    ensures x in Inserted(s, i, x)
  {
    assert Inserted(s, i, x)[i] == x;
  }

  lemma InsertingExtends(r: Registers, i': nat)
    requires r.i <= i' && r.n >= INITIAL_N
    ensures Inserting(r, i').n >= INITIAL_N && HasExtended(Inserting(r, i').out)
  {
    var ln := |r.out| + 1;
    QuotientBound(i', ln);
    InsertedHas(r.out, i' % ln, r.n + i' / ln);
  }

  // Whatever it decodes, the decoder inserts at least one extended code point.
  lemma {:induction false} DecodeInsertsExtended(b: seq<Rune>, r: Registers)
    requires r.n >= INITIAL_N && (b != [] || HasExtended(r.out)) && DecodeLoop(b, r).Label?
    ensures HasExtended(DecodeLoop(b, r).runes)
    decreases |b|
  {
    if b != [] {
      var g := GetVar(b, BASE, 1, r.i, r.bias);
      InsertingExtends(r, g.value);
      DecodeInsertsExtended(g.rest, Inserting(r, g.value));
    }
  }

  // Labels the round trip brings back.  With extended code points, a literal
  // hyphen makes the decoder split too early.  Without, the label is sent as
  // it is and must not look like an encoding that decodes.
  predicate Reversible(b: seq<Rune>) {
    if HasExtended(b) then DELIMITER !in b
    else PREFIX <= b ==>
      var digits := Digits(b[|PREFIX|..]);
      digits == [] || exists x :: x in digits && DigitVal(x) == ERR_DIGIT
  }

  lemma {:induction false} BasicOf(b: seq<Rune>, len: nat)
    requires len <= |b|
    ensures forall x :: x in Kept(b, INITIAL_N, 0, len) <==> x in b[..len] && x < INITIAL_N
    ensures |Kept(b, INITIAL_N, 0, len)| == len <==> forall q :: 0 <= q < len ==> b[q] < INITIAL_N
  {
    if len > 0 {
      BasicOf(b, len - 1);
      assert b[..len] == b[..len - 1] + [b[len - 1]];
    }
  }

  lemma BasicOfLabel(b: seq<Rune>)
    ensures forall x :: x in Basic(b) <==> x in b && x < INITIAL_N
    ensures |Basic(b)| == |b| <==> !HasExtended(b)
  {
    BasicOf(b, |b|);
    assert b[..|b|] == b;
    assert forall q :: 0 <= q < |b| ==> b[q] in b;
  }

  lemma FirstDelimiterIs(b: seq<Rune>, pos: nat)
    requires pos <= |b| && DELIMITER !in b[..pos] && (pos < |b| ==> b[pos] == DELIMITER)
    ensures FirstDelimiter(b) == pos
  {
    var f := FirstDelimiter(b);
    assert forall q :: 0 <= q < pos ==> b[q] in b[..pos];
    assert forall q :: 0 <= q < f ==> b[q] in b[..f];
  }

  // The decoder finds the two parts the encoder wrote.
  lemma PartsOfEncoding(basic: seq<Rune>, digits: seq<Rune>)
    requires DELIMITER !in digits && DELIMITER !in basic
    ensures
      var b := (if basic == [] then [] else basic + [DELIMITER]) + digits;
      Literals(b) == basic && Digits(b) == digits
  {
    if basic == [] {
      assert [] + digits == digits;
      assert digits[..|digits|] == digits;
      FirstDelimiterIs(digits, |digits|);
    } else {
      var b := basic + [DELIMITER] + digits;
      assert b[..|basic|] == basic;
      FirstDelimiterIs(b, |basic|);
    }
  }

  // With a hyphen among the literals, a delimiter is left among the digits.
  lemma SplitTooEarly(basic: seq<Rune>, digits: seq<Rune>)
    requires DELIMITER in basic
    ensures DELIMITER in Digits(basic + [DELIMITER] + digits)
  {
    var b := basic + [DELIMITER] + digits;
    var q :| 0 <= q < |basic| && basic[q] == DELIMITER;
    assert b[q] == DELIMITER;
    var pos := FirstDelimiter(b);
    assert forall k :: 0 <= k < pos ==> b[k] in b[..pos];
    assert b[pos + 1..][|basic| - pos - 1] == b[|basic|] == DELIMITER;
  }

  // What the encoder writes behind the prefix for a label with extended code points.
  function EncodedTail(b: seq<Rune>): seq<Rune> {
    (if Basic(b) == [] then [] else Basic(b) + [DELIMITER]) + AllDeltas(b)
  }

  lemma AllDeltasArePlain(b: seq<Rune>)
    requires HasExtended(b)
    ensures AllDeltas(b) != [] && forall x :: x in AllDeltas(b) ==> PlainDigit(x)
  {
    var x :| x in b && x >= INITIAL_N;
    var q :| 0 <= q < |b| && b[q] == x;
    assert !Passed(b, INITIAL_N, 0, q);
    DeltasArePlain(b, INITIAL_N, 0, INITIAL_N, 0, BIAS, MaxRune(b));
  }

  lemma PartsAreAscii(basic: seq<Rune>, digits: seq<Rune>)
    requires !HasExtended(basic) && !HasExtended(digits)
    ensures !HasExtended(PREFIX + ((if basic == [] then [] else basic + [DELIMITER]) + digits))
  {
    assert forall x :: x in PREFIX ==> x < INITIAL_N;
  }

  lemma EncodingOfExtended(b: seq<Rune>)
    requires HasExtended(b)
    ensures EncodeLabel(b) == PREFIX + EncodedTail(b) && !HasExtended(EncodeLabel(b))
  {
    BasicOfLabel(b);
    AllDeltasArePlain(b);
    var basic, digits := Basic(b), AllDeltas(b);
    assert !HasExtended(basic) && !HasExtended(digits);
    PartsAreAscii(basic, digits);
    var lits: seq<Rune> := if basic == [] then [] else basic + [DELIMITER];
    assert PREFIX + lits + digits == PREFIX + (lits + digits);
  }

  lemma HyphenFreeExtended(b: seq<Rune>)
    requires HasExtended(b) && DELIMITER !in b
    ensures DecodeLabel(EncodeLabel(b)) == b
  {
    EncodingOfExtended(b);
    BasicOfLabel(b);
    AllDeltasArePlain(b);
    PartsOfEncoding(Basic(b), AllDeltas(b));
    DecodeDeltas(b, INITIAL_N, 0, INITIAL_N, 0, BIAS, MaxRune(b));
  }

  lemma HyphenatedExtended(b: seq<Rune>)
    requires HasExtended(b) && DELIMITER in b
    ensures DecodeLabel(EncodeLabel(b)) == EncodeLabel(b) != b
  {
    EncodingOfExtended(b);
    BasicOfLabel(b);
    SplitTooEarly(Basic(b), AllDeltas(b));
    var tail := EncodedTail(b);
    MalformedExactly(Digits(tail), Initially(Literals(tail)));
  }

  lemma BasicRoundTrip(b: seq<Rune>)
    requires !HasExtended(b)
    ensures DecodeLabel(EncodeLabel(b)) == b <==> Reversible(b)
  {
    BasicOfLabel(b);
    if PREFIX <= b && Digits(b[|PREFIX|..]) != [] {
      var rest := b[|PREFIX|..];
      MalformedExactly(Digits(rest), Initially(Literals(rest)));
      if DecodeLoop(Digits(rest), Initially(Literals(rest))).Label? {
        DecodeInsertsExtended(Digits(rest), Initially(Literals(rest)));
      }
    }
  }

  // The round trip holds for exactly the reversible labels.
  lemma RoundTripExactly(b: seq<Rune>)
    ensures DecodeLabel(EncodeLabel(b)) == b <==> Reversible(b)
  {
    if !HasExtended(b) {
      BasicRoundTrip(b);
    } else if DELIMITER !in b {
      HyphenFreeExtended(b);
    } else {
      HyphenatedExtended(b);
    }
  }

  // In particular for every label without a literal hyphen.
  lemma HyphenFreeRoundTrip(b: seq<Rune>)
    requires DELIMITER !in b
    ensures DecodeLabel(EncodeLabel(b)) == b
  {
    RoundTripExactly(b);
    assert PREFIX <= b ==> DELIMITER in b by {
      assert PREFIX[2] == DELIMITER;
    }
  }

  // The label "a-u" with a diaeresis on the u does not survive.
  lemma HyphenBreaksRoundTrip()
    ensures DecodeLabel(EncodeLabel([97, 45, 252])) != [97, 45, 252]
  {
    var b: seq<Rune> := [97, 45, 252];
    assert 252 in b && DELIMITER in b;
    RoundTripExactly(b);
  }

  // The label "xn--a" is taken for an encoding.
  lemma AceLookalikeBreaksRoundTrip()
    ensures DecodeLabel(EncodeLabel([120, 110, 45, 45, 97])) != [120, 110, 45, 45, 97]
  {
    var b: seq<Rune> := [120, 110, 45, 45, 97];
    assert b[|PREFIX|..] == [97];
    FirstDelimiterIs([97], 1);
    RoundTripExactly(b);
  }

  // ----------------------------------------------------------- machine words

  // The largest code point, and the widest label for which no delta outgrows a
  // 32-bit rune; a DNS label has at most 63 code points.
  const MAX_CODE_POINT := 0x10FFFF
  const WIDEST := 1926

  lemma DeltaFitsRune(b: seq<Rune>, n: Rune, p: nat, nd: Rune, i: nat)
    requires |b| <= WIDEST && INITIAL_N <= nd && n <= MAX_CODE_POINT
    requires p <= |b| && CursorBehind(b, n, p, nd, i)
    ensures Delta(b, n, p, nd, i) + i < 0x8000_0000
  {
    BeforeBound(b, n, p);
    ProductBound(|Rebuilt(b, n, p)| + 1, n - nd, WIDEST + 1, MAX_CODE_POINT - INITIAL_N);
  }

  lemma ProductBound(x: nat, y: nat, xmax: nat, ymax: nat)
    requires x <= xmax && y <= ymax
    ensures x * y <= xmax * ymax
  {
    assert xmax * ymax - x * y == (xmax - x) * ymax + x * (ymax - y);
  }

  // ---------------------------------------------------------------- the loops

  function Lowered(text: seq<Rune>, lower: Rune -> Rune): seq<Rune> {
    seq(|text|, i requires 0 <= i < |text| => lower(text[i]))
  }

  method Preprune(text: seq<Rune>, lower: Rune -> Rune) returns (b: seq<Rune>)
    ensures b == Lowered(text, lower)
  {
    b := [];
    for i := 0 to |text|
      invariant b == Lowered(text, lower)[..i]
    {
      b := b + [lower(text[i])];
    }
  }

  // The least code point of b that is not below the boundary; if all are below,
  // the first one. The empty label is refused by a panic.
  method Next(b: seq<Rune>, boundary: Rune) returns (m: Rune)
    requires b != []
    ensures m in b && (m >= boundary <==> exists q :: 0 <= q < |b| && b[q] >= boundary)
    ensures forall q :: 0 <= q < |b| ==> b[q] < boundary || m <= b[q]
    ensures m < boundary ==> m == b[0]
  {
    m := b[0];
    for j := 1 to |b|
      invariant m in b && (m < boundary ==> m == b[0])
      invariant forall q :: 0 <= q < j ==> b[q] < boundary || (boundary <= m <= b[q])
    {
      if b[j] >= boundary && (m < boundary || b[j] < m) {
        m := b[j];
      }
    }
  }

  method WriteDelta(delta: nat, bias: nat, out: seq<Rune>) returns (r: seq<Rune>)
    ensures r == out + PutVar(delta, BASE, bias)
  {
    r := out;
    var q: nat, k: nat := delta, BASE;
    while true
      invariant r + PutVar(q, k, bias) == out + PutVar(delta, BASE, bias)
      decreases q
    {
      var t := Threshold(k, bias);
      if q < t {
        break;
      }
      r := r + [LetterCode(LowDigit(q, t))];
      q := HighPart(q, t);
      k := k + BASE;
    }
    r := r + [LetterCode(q)];
  }

  // The encoder's running counter follows the distance the cursor has to go.
  lemma DeltaOverCell(b: seq<Rune>, n: Rune, p: nat, nd: Rune, i: nat)
    requires p < |b| && CursorBehind(b, n, p, nd, i)
    ensures b[p] != n ==> CursorBehind(b, n, p + 1, nd, i) && |Rebuilt(b, n, p + 1)| == |Rebuilt(b, n, p)|
    ensures b[p] != n ==> Delta(b, n, p + 1, nd, i) == Delta(b, n, p, nd, i) + (if b[p] < n then 1 else 0)
    ensures b[p] == n ==> CursorBehind(b, n, p + 1, n, Before(b, n, p) + 1)
    ensures b[p] == n ==> |Rebuilt(b, n, p + 1)| == |Rebuilt(b, n, p)| + 1
    ensures b[p] == n ==> Delta(b, n, p + 1, n, Before(b, n, p) + 1) == 0
  {
    CursorAfterStep(b, n, p, nd, i);
    BeforeNext(b, n, p);
    if b[p] == n {
      PassInserts(b, n, p, |b|);
    } else {
      KeptSame(b, n, p, n, p + 1, |b|);
    }
  }

  lemma DeltaOverPass(b: seq<Rune>, n: Rune, nd: Rune, i: nat)
    requires CursorBehind(b, n, |b|, nd, i)
    ensures CursorBehind(b, n + 1, 0, nd, i) && Rebuilt(b, n + 1, 0) == Rebuilt(b, n, |b|)
    ensures Delta(b, n + 1, 0, nd, i) == Delta(b, n, |b|, nd, i) + 1
  {
    CursorAfterPass(b, n, nd, i);
    BeforeBound(b, n, |b|);
    var m := |Rebuilt(b, n, |b|)| + 1;
    assert m * (n + 1 - nd) == m * (n - nd) + m;
  }

  lemma DeltaOverJump(b: seq<Rune>, n: Rune, m: Rune, nd: Rune, i: nat)
    requires n <= m && CursorBehind(b, n, 0, nd, i) && CursorBehind(b, m, 0, nd, i)
    requires Rebuilt(b, n, 0) == Rebuilt(b, m, 0)
    ensures Delta(b, m, 0, nd, i) == Delta(b, n, 0, nd, i) + (m - n) * (|Rebuilt(b, n, 0)| + 1)
  {
    var h := |Rebuilt(b, n, 0)| + 1;
    assert h * (m - nd) == h * (n - nd) + (m - n) * h;
  }

  lemma SomethingLeft(b: seq<Rune>, n: Rune)
    requires |Rebuilt(b, n, 0)| < |b|
    ensures exists q :: 0 <= q < |b| && b[q] >= n
  {
    if forall q :: 0 <= q < |b| ==> Passed(b, n, 0, q) {
      KeptAll(b, n, 0, |b|);
    }
  }

  lemma {:induction false} NoMoreDeltas(b: seq<Rune>, n: Rune, nd: int, i: nat, bias: nat, max: int)
    requires CursorBehind(b, n, 0, nd, i) && |Rebuilt(b, n, 0)| == |b|
    ensures Deltas(b, n, 0, nd, i, bias, max) == []
    decreases max + 1 - n
  {
    if n <= max {
      KeptFull(b, n, 0, |b|);
      forall q | 0 <= q < |b|
        ensures b[q] < n
      {
        assert Passed(b, n, 0, q);
      }
      KeptSame(b, n, 0, n + 1, 0, |b|);
      EmptyPass(b, n, 0, nd, i, bias, max);
      NoMoreDeltas(b, n + 1, nd, i, bias, max);
    }
  }

  // The encoder's registers agree with the walk at <n, p>: out, completed by
  // the remaining deltas, is the goal.
  ghost predicate InStep(b: seq<Rune>, n: Rune, p: nat, nd: Rune, i: nat, max: int, basiclen: nat, goal: seq<Rune>,
                         bias: nat, delta: nat, h: nat, out: seq<Rune>)
    requires p <= |b|
  {
    && CursorBehind(b, n, p, nd, i) && h == |Rebuilt(b, n, p)| && delta == Delta(b, n, p, nd, i)
    && basiclen <= h && (i == 0 <==> h == basiclen)
    && out + Deltas(b, n, p, nd, i, bias, max) == goal
  }

  lemma InStepOverMiss(b: seq<Rune>, n: Rune, p: nat, nd: Rune, i: nat, max: int, basiclen: nat, goal: seq<Rune>,
                       bias: nat, delta: nat, h: nat, out: seq<Rune>)
    requires n <= max && p < |b| && b[p] != n && InStep(b, n, p, nd, i, max, basiclen, goal, bias, delta, h, out)
    ensures InStep(b, n, p + 1, nd, i, max, basiclen, goal, bias, if b[p] < n then delta + 1 else delta, h, out)
  {
    DeltaOverCell(b, n, p, nd, i);
  }

  lemma InStepOverHit(b: seq<Rune>, n: Rune, p: nat, nd: Rune, i: nat, max: int, basiclen: nat, goal: seq<Rune>,
                      bias: nat, delta: nat, h: nat, out: seq<Rune>)
    requires n <= max && p < |b| && b[p] == n && InStep(b, n, p, nd, i, max, basiclen, goal, bias, delta, h, out)
    ensures InStep(b, n, p + 1, n, Before(b, n, p) + 1, max, basiclen, goal,
                   NewBias(delta, h + 1, h == basiclen), 0, h + 1, out + PutVar(delta, BASE, bias))
  {
    DeltaOverCell(b, n, p, nd, i);
    var rest := Deltas(b, n, p + 1, n, Before(b, n, p) + 1, NewBias(delta, h + 1, h == basiclen), max);
    assert Deltas(b, n, p, nd, i, bias, max) == PutVar(delta, BASE, bias) + rest;
    assert out + PutVar(delta, BASE, bias) + rest == out + (PutVar(delta, BASE, bias) + rest);
  }

  lemma InStepOverPass(b: seq<Rune>, n: Rune, nd: Rune, i: nat, max: int, basiclen: nat, goal: seq<Rune>,
                       bias: nat, delta: nat, h: nat, out: seq<Rune>)
    requires n <= max && InStep(b, n, |b|, nd, i, max, basiclen, goal, bias, delta, h, out)
    ensures InStep(b, n + 1, 0, nd, i, max, basiclen, goal, bias, delta + 1, h, out)
  {
    DeltaOverPass(b, n, nd, i);
  }

  lemma InStepOverJump(b: seq<Rune>, n: Rune, m: Rune, nd: Rune, i: nat, max: int, basiclen: nat, goal: seq<Rune>,
                       bias: nat, delta: nat, h: nat, out: seq<Rune>)
    requires n <= m <= max && InStep(b, n, 0, nd, i, max, basiclen, goal, bias, delta, h, out)
    requires forall q :: 0 <= q < |b| ==> b[q] < n || m <= b[q]
    ensures delta + (m - n) * (h + 1) >= 0
    ensures InStep(b, m, 0, nd, i, max, basiclen, goal, bias, delta + (m - n) * (h + 1), h, out)
  {
    Jump(b, n, m, nd, i, bias, max);
    DeltaOverJump(b, n, m, nd, i);
  }

  // One pass over the label for code point n.
  method EncodePass(b: seq<Rune>, n: Rune, bias0: nat, delta0: nat, h0: nat, basiclen: nat, out0: seq<Rune>,
                    ghost nd0: Rune, ghost i0: nat, ghost max: int, ghost goal: seq<Rune>)
    returns (bias: nat, delta: nat, h: nat, out: seq<Rune>, ghost nd: Rune, ghost i: nat)
    requires n <= max && InStep(b, n, 0, nd0, i0, max, basiclen, goal, bias0, delta0, h0, out0)
    ensures InStep(b, n, |b|, nd, i, max, basiclen, goal, bias, delta, h, out)
  {
    bias, delta, h, out, nd, i := bias0, delta0, h0, out0, nd0, i0;
    for p := 0 to |b|
      invariant InStep(b, n, p, nd, i, max, basiclen, goal, bias, delta, h, out)
    {
      if b[p] != n {
        InStepOverMiss(b, n, p, nd, i, max, basiclen, goal, bias, delta, h, out);
      }
      if b[p] < n {
        delta := delta + 1;
      }
      if b[p] == n {
        InStepOverHit(b, n, p, nd, i, max, basiclen, goal, bias, delta, h, out);
        nd, i := n, Before(b, n, p) + 1;
        out := WriteDelta(delta, bias, out);
        bias := Adapt(delta, h + 1, h == basiclen);
        h, delta := h + 1, 0;
      }
    }
  }

  method Encode(text: seq<Rune>, lower: Rune -> Rune) returns (r: seq<Rune>)
    ensures r == EncodeLabel(Lowered(text, lower))
  {
    var b := Preprune(text, lower);
    var basic: seq<Rune> := [];
    for q := 0 to |b|
      invariant basic == Kept(b, INITIAL_N, 0, q)
    {
      if b[q] <= 0x7f {
        basic := basic + [b[q]];
      }
    }
    var basiclen, fulllen := |basic|, |b|;
    if basiclen == fulllen {
      KeptFull(b, INITIAL_N, 0, |b|);
      KeptAll(b, INITIAL_N, 0, |b|);
      return basic;
    }
    r := PREFIX;
    if basiclen > 0 {
      r := r + basic + [DELIMITER];
    }
    r := EncodeExtended(b, basiclen, r);
  }

  method EncodeExtended(b: seq<Rune>, basiclen: nat, head: seq<Rune>) returns (out: seq<Rune>)
    requires basiclen == |Basic(b)|
    ensures out == head + AllDeltas(b)
  {
    ghost var max, goal := MaxRune(b), head + AllDeltas(b);
    ghost var nd: Rune, i: nat := INITIAL_N, 0;
    var n: Rune, bias: nat, delta: nat, h: nat := INITIAL_N, BIAS, 0, basiclen;
    out := head;
    while h < |b|
      invariant InStep(b, n, 0, nd, i, max, basiclen, goal, bias, delta, h, out)
      decreases max + 1 - n
    {
      SomethingLeft(b, n);
      var nextltr := Next(b, n);
      InStepOverJump(b, n, nextltr, nd, i, max, basiclen, goal, bias, delta, h, out);
      delta, n := delta + (nextltr - n) * (h + 1), nextltr;
      bias, delta, h, out, nd, i := EncodePass(b, n, bias, delta, h, basiclen, out, nd, i, max, goal);
      InStepOverPass(b, n, nd, i, max, basiclen, goal, bias, delta, h, out);
      n, delta := n + 1, delta + 1;
    }
    NoMoreDeltas(b, n, nd, i, bias, max);
  }

  // Reads one delta off b, adding it to i0.
  method ReadDelta(b: seq<Rune>, i0: nat, bias: nat) returns (ok: bool, i: nat, rest: seq<Rune>)
    ensures (if ok then Got(i, rest) else BadDigit) == GetVar(b, BASE, 1, i0, bias)
  {
    i, rest := i0, b;
    var w: nat, k: nat := 1, BASE;
    while rest != []
      invariant GetVar(rest, k, w, i, bias) == GetVar(b, BASE, 1, i0, bias)
      decreases |rest|
    {
      var digit := DigitVal(rest[0]);
      if digit == ERR_DIGIT {
        return false, i, rest;
      }
      rest := rest[1..];
      i := i + Worth(digit, w);
      var t := Threshold(k, bias);
      if digit < t {
        return true, i, rest;
      }
      w := NextWeight(w, t);
      k := k + BASE;
    }
    return true, i, rest;
  }

  method DecodeDigits(digits: seq<Rune>, literals: seq<Rune>) returns (r: Decoded)
    ensures r == DecodeLoop(digits, Initially(literals))
  {
    var b, out := digits, literals;
    var n: Rune, i: nat, bias: nat := INITIAL_N, 0, BIAS;
    while b != []
      invariant DecodeLoop(b, Registers(n, i, bias, out)) == DecodeLoop(digits, Initially(literals))
      decreases |b|
    {
      ghost var before := Registers(n, i, bias, out);
      var oldi := i;
      var ok;
      ok, i, b := ReadDelta(b, i, bias);
      if !ok {
        return Malformed;
      }
      ghost var after := Inserting(before, i);
      n, i, bias, out := Insert(n, oldi, i, out);
      assert Registers(n, i, bias, out) == after;
    }
    return Label(out);
  }

  // Splits i into code point and position, inserts, and adapts the bias.
  method Insert(n0: Rune, oldi: nat, i0: nat, out0: seq<Rune>) returns (n: Rune, i: nat, bias: nat, out: seq<Rune>)
    requires oldi <= i0
    ensures forall b :: Registers(n, i, bias, out) == Inserting(Registers(n0, oldi, b, out0), i0)
  {
    var ln := |out0| + 1;
    bias := Adapt(i0 - oldi, ln, oldi == 0);
    QuotientBound(i0, ln);
    n := n0 + i0 / ln;
    i := i0 % ln;
    out := out0[..i] + [n] + out0[i..];
    i := i + 1;
  }

  method Decode(src: seq<Rune>) returns (r: seq<Rune>)
    ensures r == DecodeLabel(src)
  {
    if !(PREFIX <= src) {
      return src;
    }
    var b := src[|PREFIX|..];
    var out: seq<Rune> := [];
    var pos := 0;
    while pos < |b|
      invariant pos <= |b| && DELIMITER !in b[..pos]
    {
      if b[pos] == DELIMITER {
        break;
      }
      pos := pos + 1;
    }
    FirstDelimiterIs(b, pos);
    if pos < |b| {
      out, b := b[..pos], b[pos + 1..];
    }
    if b == [] {
      return src;
    }
    var d := DecodeDigits(b, out);
    return if d.Malformed? then src else d.runes;
  }
}
