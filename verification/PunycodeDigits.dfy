/**
  The digits and the biases of punycode, for all numbers: what is written for a
  delta is told by what digits are worth (section 3.3 of RFC 3492) and by the
  thresholds (section 6.2), and the bias behind it by quotients (section 6.1), with
  the parameters of section 5 as numbers.
 */
module PunycodeDigits {
  import opened Punycode

  const LETTERS := "abcdefghijklmnopqrstuvwxyz0123456789"

  lemma LetterIs(digit: nat)
    requires digit < 36
    ensures LetterCode(digit) == LETTERS[digit] as int
  {
    var s := "abcdefghijklmnopqrstuvwxyz0123456789";
    assert forall d :: 0 <= d < 26 ==> s[d] as int == 97 + d;
    assert forall d :: 26 <= d < 36 ==> s[d] as int == 22 + d;
  }

  // Capital letters are read like small ones, and nothing else is a digit.
  lemma DigitExactly(code: Rune, digit: nat)
    requires digit < 36
    ensures DigitVal(code) == digit <==>
            code == LETTERS[digit] as int || (digit < 26 && code == LETTERS[digit] as int - 32)
    ensures DigitVal(code) < 36 || DigitVal(code) == ERR_DIGIT
  {
    LetterIs(digit);
  }

  // ------------------------------------------------- numbers as their digits

  function Clamped(x: int): (t: int)
    ensures 1 <= t <= 26
  {
    if x < 1 then 1 else if x > 26 then 26 else x
  }

  // Every digit but the last is at its threshold or above it, and the last is
  // below (section 6.2 of RFC 3492).
  predicate IsVar(ds: seq<nat>, k: nat, bias: nat) {
    && ds != []
    && if |ds| == 1 then ds[0] < Clamped(k - bias)
       else Clamped(k - bias) <= ds[0] < 36 && IsVar(ds[1..], k + 36, bias)
  }

  // What the digits are worth (section 3.3): behind a digit all count 36 less its
  // threshold times as much.
  function Value(ds: seq<nat>, k: nat, bias: nat): nat {
    if ds == [] then 0 else ds[0] + Weighed(36 - Clamped(k - bias), Value(ds[1..], k + 36, bias))
  }

  function Weighed(weight: nat, value: nat): nat {
    weight * value
  }

  function Letters(ds: seq<nat>): (s: seq<Rune>)
    ensures |s| == |ds|
  {
    seq(|ds|, i requires 0 <= i < |ds| => if ds[i] < 36 then LETTERS[ds[i]] as int else 0)
  }

  lemma DigitOf(digit: nat, rest: nat, t: nat)
    requires 1 <= t <= 26 && t <= digit < 36
    ensures var q := digit + Weighed(36 - t, rest);
            t <= q && LowDigit(q, t) == digit && HighPart(q, t) == rest
  {
    var q, m := digit + Weighed(36 - t, rest), 36 - t;
    assert q - t == m * rest + (digit - t);
    assert 0 <= m * rest by { if rest > 0 { AtLeastFactor(m, rest); } }
    QuotientBound(q - t, m);
    QuotientUnique(m, rest, digit - t, (q - t) / m, (q - t) % m);
  }

  // Digits in this form are written for the number they are worth.
  lemma {:induction false} WrittenByValue(ds: seq<nat>, k: nat, bias: nat)
    requires IsVar(ds, k, bias)
    ensures PutVar(Value(ds, k, bias), k, bias) == Letters(ds)
    decreases |ds|
  {
    hide LowDigit, HighPart, LetterCode, Weighed, Letters;
    var t := Clamped(k - bias);
    assert Threshold(k, bias) == t;
    LetterIs(ds[0]);
    LettersSplit(ds);
    if |ds| == 1 {
      WeighedNothing(36 - t);
      assert Value(ds[1..], k + 36, bias) == 0;
    } else {
      WrittenByValue(ds[1..], k + 36, bias);
      DigitOf(ds[0], Value(ds[1..], k + 36, bias), t);
    }
  }

  lemma WeighedNothing(weight: nat)
    ensures Weighed(weight, 0) == 0
  {
  }

  lemma LettersSplit(ds: seq<nat>)
    requires ds != [] && ds[0] < 36
    ensures Letters(ds) == [LETTERS[ds[0]] as int] + Letters(ds[1..])
    ensures |ds| == 1 ==> Letters(ds) == [LETTERS[ds[0]] as int]
  {
  }

  lemma {:induction false} HasDigits(q: nat, k: nat, bias: nat) returns (ds: seq<nat>)
    ensures IsVar(ds, k, bias) && Value(ds, k, bias) == q
    decreases q
  {
    var t := Threshold(k, bias);
    assert Clamped(k - bias) == t;
    if q < t {
      ds := [q];
      assert Weighed(36 - t, 0) == 0;
    } else {
      var rest := HasDigits(HighPart(q, t), k + 36, bias);
      ds := [LowDigit(q, t)] + rest;
      assert ds[1..] == rest;
      assert Weighed(36 - t, HighPart(q, t)) == HighPart(q, t) * (36 - t);
    }
  }

  /** What is written for a number: the digits in this form that are worth it. */
  lemma VarExactly(q: nat, k: nat, bias: nat, s: seq<Rune>)
    ensures PutVar(q, k, bias) == s <==> exists ds :: IsVar(ds, k, bias) && Value(ds, k, bias) == q && s == Letters(ds)
  {
    hide PutVar, IsVar, Value, Letters;
    var mine := HasDigits(q, k, bias);
    WrittenByValue(mine, k, bias);
    if ds :| IsVar(ds, k, bias) && Value(ds, k, bias) == q && s == Letters(ds) {
      WrittenByValue(ds, k, bias);
    }
  }

  // ------------------------------------------------------------ the next bias

  // Divided by 35 until it is at most 455 (section 6.1 of RFC 3492).
  predicate Shrinks(qs: seq<nat>) {
    && qs != [] && qs[|qs| - 1] <= 455
    && forall i :: 0 <= i < |qs| - 1 ==> qs[i] > 455 && 35 * qs[i + 1] <= qs[i] < 35 * qs[i + 1] + 35
  }

  lemma {:induction false} ShrinksTo(qs: seq<nat>, k: nat)
    requires Shrinks(qs)
    ensures AdaptFrom(qs[0], k) == k + 36 * (|qs| - 1) + 36 * qs[|qs| - 1] / (qs[|qs| - 1] + 38)
    decreases |qs|
  {
    if |qs| > 1 {
      assert qs[0] / 35 == qs[1];
      ShrinksTo(qs[1..], k + 36);
    }
  }

  lemma {:induction false} HasShrunk(delta: nat) returns (qs: seq<nat>)
    ensures Shrinks(qs) && qs[0] == delta
  {
    if delta <= 455 {
      qs := [delta];
    } else {
      var rest := HasShrunk(delta / 35);
      qs := [delta] + rest;
      assert forall i :: 0 <= i < |rest| ==> qs[i + 1] == rest[i];
    }
  }

  // A 700th of the first delta or half of a later one, and of that a share for
  // the code points there are.
  predicate DampedBy(delta: nat, points: nat, first: bool, e: nat, share: nat) {
    && (if first then 700 * e <= delta < 700 * e + 700 else 2 * e <= delta < 2 * e + 2)
    && Weighed(points, share) <= e < Weighed(points, share) + points
  }

  lemma DampedIs(delta: nat, points: nat, first: bool, e: nat, share: nat)
    requires points > 0
    ensures DampedBy(delta, points, first, e, share) <==>
            e == (if first then delta / 700 else delta / 2) && share == e / points
  {
    QuotientBound(e, points);
    if DampedBy(delta, points, first, e, share) {
      QuotientUnique(points, share, e - points * share, e / points, e % points);
    }
  }

  // The bias behind a delta: 36 for every division, and a last fraction.
  ghost predicate IsBias(bias: nat, delta: nat, points: nat, first: bool, e: nat, share: nat, qs: seq<nat>) {
    && DampedBy(delta, points, first, e, share) && Shrinks(qs) && qs[0] == e + share
    && bias == 36 * (|qs| - 1) + 36 * qs[|qs| - 1] / (qs[|qs| - 1] + 38)
  }

  /** The bias behind a delta (section 6.1 of RFC 3492), by its quotients. */
  lemma BiasExactly(delta: nat, points: nat, first: bool, bias: nat)
    requires points > 0
    ensures NewBias(delta, points, first) == bias <==>
            exists e, share, qs :: IsBias(bias, delta, points, first, e, share, qs)
  {
    hide DampedBy, Shrinks, AdaptFrom;
    var d := if first then delta / 700 else delta / 2;
    DampedIs(delta, points, first, d, d / points);
    var mine := HasShrunk(d + d / points);
    ShrinksTo(mine, 0);
    if NewBias(delta, points, first) == bias {
      assert IsBias(bias, delta, points, first, d, d / points, mine);
    } else if e, share, qs :| IsBias(bias, delta, points, first, e, share, qs) {
      DampedIs(delta, points, first, e, share);
      ShrinksTo(qs, 0);
    }
  }
}
