/**
 * What the text of a name says, and what the packer takes from it
 * (packDomainName in miekg/dns, msg.go; IsFqdn in defaults.go).
 *
 * Only the last byte of a text is tested: it must be a dot. The packer writes a
 * label at every dot that is not escaped. If the last dot is escaped, it belongs
 * to a label that nothing closes, and that label is dropped without a word.
 */
module DnsText {
  import opened Common
  import opened DnsName
  import opened DnsPack

  // The labels that the packer takes from a text; the root has none.
  function Named(text: seq<byte>): seq<Label> {
    if text == [DOT] then [] else Parse(text)
  }

  // The label that no stop closes, if there is one.
  function Open(tokens: seq<Token>, open: Label): seq<Label> {
    if tokens == [] then (if open == [] then [] else [open])
    else match tokens[0]
      case Byte(b) => Open(tokens[1..], open + [b])
      case Stop => Open(tokens[1..], [])
  }

  // All labels of a text, whether a stop closes them or not.
  function Rest(tokens: seq<Token>, open: Label): seq<Label> {
    Cut(tokens, open) + Open(tokens, open)
  }

  function Said(text: seq<byte>): seq<Label> {
    if text == [DOT] then [] else Rest(Tokens(text), [])
  }

  // How many backslashes a text ends in.
  function Backslashes(s: seq<byte>): (n: nat)
    ensures n <= |s|
  {
    if s != [] && s[|s| - 1] == BACKSLASH then 1 + Backslashes(s[..|s| - 1]) else 0
  }

  // The last byte has a backslash of its own in front.
  predicate LastEscaped(text: seq<byte>) {
    text != [] && Backslashes(text[..|text| - 1]) % 2 == 1
  }

  // ------------------------------------------------------ the label left open

  lemma OpenStep(t: seq<byte>, open: Label)
    ensures t == [] ==> Open(Tokens(t), open) == if open == [] then [] else [open]
    ensures t != [] && t[0] == DOT ==> Open(Tokens(t), open) == Open(Tokens(t[1..]), [])
    ensures t != [] && t[0] != DOT && t[0] != BACKSLASH ==>
              Open(Tokens(t), open) == Open(Tokens(t[1..]), open + [t[0]])
  {
  }

  lemma OpenByte(b: byte, rest: seq<Token>, open: Label)
    ensures Open([Byte(b)] + rest, open) == Open(rest, open + [b])
  {
    assert ([Byte(b)] + rest)[1..] == rest;
  }

  // The labels ahead of the packer's loop, the open one included, at an escape,
  // at any other byte, at a dot and at the end.
  lemma RestAtEscape(bs: seq<byte>, ls: nat, i: nat, begin: nat)
    requires begin <= i && i + 1 < ls <= |bs| && bs[ls - 1] == DOT && bs[i] == BACKSLASH
    ensures var (next, m) := Unescaped(bs, i, ls);
            Rest(Tokens(bs[i..ls]), bs[begin..i]) == Rest(Tokens(next[i + 1..m]), next[begin..i + 1])
  {
    hide Unescaped, Tokens, Cut, Open;
    CutAtEscape(bs, ls, i, begin);
    UnescapedIs(bs, i, ls);
    var (next, m) := Unescaped(bs, i, ls);
    OpenByte(next[i], Tokens(next[i + 1..m]), bs[begin..i]);
    assert next[begin..i + 1] == bs[begin..i] + [next[i]];
  }

  lemma RestAtByte(bs: seq<byte>, ls: nat, i: nat, begin: nat)
    requires begin <= i < ls <= |bs| && bs[i] != BACKSLASH && bs[i] != DOT
    ensures Rest(Tokens(bs[i..ls]), bs[begin..i]) == Rest(Tokens(bs[i + 1..ls]), bs[begin..i + 1])
  {
    hide Tokens, Cut, Open;
    CutAtByte(bs, ls, i, begin);
    OpenStep(bs[i..ls], bs[begin..i]);
    assert bs[i..ls][1..] == bs[i + 1..ls] && bs[begin..i + 1] == bs[begin..i] + [bs[i]];
  }

  lemma RestAtDot(bs: seq<byte>, ls: nat, i: nat, begin: nat)
    requires begin <= i < ls <= |bs| && bs[i] == DOT
    ensures Rest(Tokens(bs[i..ls]), bs[begin..i]) == [bs[begin..i]] + Rest(Tokens(bs[i + 1..ls]), bs[i + 1..i + 1])
  {
    hide Tokens, Cut, Open;
    CutAtDot(bs, ls, i, begin);
    OpenStep(bs[i..ls], bs[begin..i]);
    assert bs[i..ls][1..] == bs[i + 1..ls] && bs[i + 1..i + 1] == [];
  }

  lemma RestAtEnd(bs: seq<byte>, ls: nat, begin: nat)
    requires begin <= ls <= |bs|
    ensures Rest(Tokens(bs[ls..ls]), bs[begin..ls]) == [] <==> begin == ls
  {
    CutAtEnd(bs, ls, begin);
    OpenStep(bs[ls..ls], bs[begin..ls]);
  }

  // ------------------------------------------------ when the last label is lost

  lemma {:induction false} BackslashesBehind(a: seq<byte>, b: seq<byte>)
    ensures Backslashes(a + b) == if Backslashes(b) < |b| then Backslashes(b) else |b| + Backslashes(a)
    decreases |b|
  {
    var s := a + b;
    if b == [] {
      assert s == a;
    } else {
      assert s[|s| - 1] == b[|b| - 1] && s[..|s| - 1] == a + b[..|b| - 1];
      BackslashesBehind(a, b[..|b| - 1]);
    }
  }

  // The parity is that of what is left behind a token.
  lemma BehindToken(t: seq<byte>, w: nat)
    requires 0 < w < |t| && Backslashes(t[..w]) % 2 == 0
    ensures LastEscaped(t) == LastEscaped(t[w..])
  {
    var front, back := t[..w], t[w..];
    assert t[..|t| - 1] == front + back[..|back| - 1];
    BackslashesBehind(front, back[..|back| - 1]);
  }

  lemma TokenBackslashes(t: seq<byte>)
    ensures |t| >= 1 && t[0] != BACKSLASH ==> Backslashes(t[..1]) == 0
    ensures |t| >= 2 && t[0] == BACKSLASH ==> Backslashes(t[..2]) % 2 == 0
    ensures |t| >= 4 && StartsDdd(t[1..]) ==> Backslashes(t[..4]) == 0
  {
    assert Backslashes([]) == 0;
    if |t| >= 2 && t[0] == BACKSLASH {
      assert t[..2][..1] == [BACKSLASH] && [BACKSLASH][..0] == [];
      assert Backslashes([BACKSLASH]) == 1;
    }
    if |t| >= 4 && StartsDdd(t[1..]) { assert t[..4][3] == t[1..][2]; }
  }

  // What is left open of a text that ends in a dot: nothing, or a label that
  // ends in that dot.
  lemma {:induction false} OpenExactly(t: seq<byte>, open: Label)
    requires t != [] && t[|t| - 1] == DOT
    ensures if LastEscaped(t) then |Open(Tokens(t), open)| == 1 && EndsInDot(Open(Tokens(t), open)[0])
            else Open(Tokens(t), open) == []
    decreases |t|
  {
    hide Tokens, Open, Unescape, StartsDdd;
    TokenBackslashes(t);
    if t[0] == BACKSLASH {
      EscapeTaken(t);
      var w := if StartsDdd(t[1..]) then 4 else 2;
      OpenByte(Unescape(t[1..]), Tokens(t[w..]), open);
      if w == |t| {
        LastTaken(t, open);
      } else {
        BehindToken(t, w);
        OpenExactly(t[w..], open + [Unescape(t[1..])]);
      }
    } else {
      OpenStep(t, open);
      var rest := if t[0] == DOT then [] else open + [t[0]];
      if |t| == 1 {
        assert t[..0] == [] && t[1..] == [];
        OpenStep([], []);
      } else {
        BehindToken(t, 1);
        OpenExactly(t[1..], rest);
      }
    }
  }

  predicate EndsInDot(l: Label) { l != [] && l[|l| - 1] == DOT }

  // A backslash before the last dot: its token, with enough left to be one.
  lemma EscapeTaken(t: seq<byte>)
    requires t != [] && t[0] == BACKSLASH && t[|t| - 1] == DOT
    ensures |t| >= 2
    ensures var w := if StartsDdd(t[1..]) then 4 else 2;
            && w <= |t| && (w == 4 ==> w < |t|)
            && Tokens(t) == [Byte(Unescape(t[1..]))] + Tokens(t[w..])
  {
    hide Unescape;
    if StartsDdd(t[1..]) { assert t[3] == t[1..][2]; }
  }

  lemma LastTaken(t: seq<byte>, open: Label)
    requires |t| == 2 && t[0] == BACKSLASH && t[1] == DOT
    ensures LastEscaped(t) && Unescape(t[1..]) == DOT && !StartsDdd(t[1..])
    ensures Open(Tokens(t[2..]), open + [DOT]) == [open + [DOT]]
  {
    assert t[..1] == [BACKSLASH] && [BACKSLASH][..0] == [] && Backslashes([]) == 0;
    OpenStep(t[2..], open + [DOT]);
  }

  /**
   * A text that ends in a dot loses its last label if and only if that dot is
   * escaped: if an odd number of backslashes stands before it. Nothing else is
   * ever lost.
   */
  lemma LastLostExactly(text: seq<byte>)
    requires text != [] && text[|text| - 1] == DOT
    ensures Named(text) == Said(text) <==> !LastEscaped(text)
    ensures LastEscaped(text) ==> exists l :: EndsInDot(l) && Said(text) == Named(text) + [l]
  {
    hide Tokens, Cut, Open;
    if text == [DOT] {
      assert text[..0] == [] && Backslashes([]) == 0;
    } else {
      OpenExactly(text, []);
      var open := Open(Tokens(text), []);
      if LastEscaped(text) { assert open == [open[0]]; }
    }
  }
}
