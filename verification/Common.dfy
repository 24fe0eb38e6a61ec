/** What several parts of the model share. */
module Common {
  datatype Option<+T> = None | Some(value: T)

  type byte = x: int | 0 <= x < 256

  // Bytes that stand at i in a buffer are the buffer's bytes there.
  lemma PrefixAt(s: seq<byte>, buf: seq<byte>, i: nat)
    requires i <= |buf| && s <= buf[i..]
    ensures i + |s| <= |buf| && buf[i..i + |s|] == s
  {
    assert buf[i..][..|s|] == buf[i..i + |s|];
  }

  lemma PrefixSplits(a: seq<byte>, b: seq<byte>, buf: seq<byte>, i: nat)
    requires i <= |buf| && a + b <= buf[i..]
    ensures a <= buf[i..] && i + |a| + |b| <= |buf| && b <= buf[i + |a|..]
  {
    assert a == (a + b)[..|a|] && b == (a + b)[|a|..];
    assert buf[i..][|a|..] == buf[i + |a|..];
  }

  // ------------------------------------------------------------- arithmetic

  lemma Grows(a: nat, b: nat, d: nat)
    requires a >= b
    ensures a * d >= b * d
  {
  }

  // Quotient and remainder are the only ones.
  lemma Unique(x: nat, d: nat, q: nat, r: nat)
    requires x == d * q + r && r < d
    ensures x % d == r && x / d == q
  {
    SameQuotient(d, q, r, x / d, x % d);
  }

  lemma SameQuotient(d: nat, q: nat, r: nat, p: nat, t: nat)
    requires d * q + r == d * p + t && r < d && t < d
    ensures q == p && r == t
  {
    if p > q {
      Grows(p, q + 1, d);
    } else if p < q {
      Grows(q, p + 1, d);
    }
  }

  lemma DivideTwice(x: nat, a: nat, b: nat)
    requires a > 0 && b > 0
    ensures a * b > 0 && x / a / b == x / (a * b)
  {
    var y, u := x / a, x % a;
    var q, v := y / b, y % b;
    ProductPositive(a, b);
    QuotientAndRest(x, a);
    QuotientAndRest(y, b);
    RegroupProduct(a, b, q, v, u);
    Unique(x, a * b, q, a * v + u);
  }

  lemma ProductPositive(a: nat, b: nat)
    requires a > 0 && b > 0
    ensures a * b > 0
  {
  }

  lemma QuotientAndRest(x: nat, d: nat)
    requires d > 0
    ensures x == d * (x / d) + x % d && 0 <= x % d < d && x / d >= 0
  {
  }

  lemma RegroupProduct(a: nat, b: nat, q: nat, v: nat, u: nat)
    requires v < b && u < a
    ensures a * (b * q + v) + u == (a * b) * q + (a * v + u) && a * v + u < a * b
  {
    assert a * (b * q + v) == (a * b) * q + a * v;
    Grows(b, v + 1, a);
  }
}
