/**
 * Cutting names at their label boundaries (miekg/dns, labels.go) and choosing
 * the handler for a question by the longest registered suffix (ServeMux.match,
 * server.go).
 */
module DnsLabels {
  import opened Common

  // ------------------------------------------------------------- boundaries

  // Does an odd run of backslashes end right before i?
  predicate Quoted(s: string, i: nat)
    requires i <= |s|
  {
    i > 0 && s[i - 1] == '\\' && !Quoted(s, i - 1)
  }

  // A label begins at the beginning and behind every dot that is not quoted,
  // unless the name ends there.
  predicate IsStart(s: string, p: nat) {
    p == 0 || (p < |s| && s[p - 1] == '.' && !Quoted(s, p - 1))
  }

  // The loop of NextLabel from i on.
  function NextFrom(s: string, i: nat, quote: bool): (r: (nat, bool))
    ensures i < r.0 && (!r.1 ==> r.0 < |s|)
    decreases |s| - i
  {
    if i + 1 >= |s| then (i + 1, true)
    else if s[i] == '\\' then NextFrom(s, i + 1, !quote)
    else if s[i] == '.' && !quote then (i + 1, false)
    else NextFrom(s, i + 1, false)
  }

  function NextLabel(s: string, off: nat): (r: (nat, bool))
    ensures off < r.0 && (!r.1 ==> r.0 < |s|)
  {
    NextFrom(s, off, false)
  }

  // The next start is the first one behind i; at the end there is none.
  lemma {:induction false} NextFromFinds(s: string, i: nat, quote: bool)
    requires i <= |s| && quote == Quoted(s, i)
    ensures var (n, end) := NextFrom(s, i, quote);
            && (forall p :: i < p < |s| && (end || p < n) ==> !IsStart(s, p))
            && (!end ==> IsStart(s, n))
    decreases |s| - i
  {
    if i + 1 < |s| && !(s[i] == '.' && !quote) {
      NextFromFinds(s, i + 1, if s[i] == '\\' then !quote else false);
    }
  }

  lemma StartNotQuoted(s: string, p: nat)
    requires p <= |s| && IsStart(s, p)
    ensures !Quoted(s, p)
  {
  }

  function StartsFrom(s: string, off: nat): seq<nat>
    decreases |s| - off
  {
    var (n, end) := NextLabel(s, off);
    if end then [off] else [off] + StartsFrom(s, n)
  }

  // The offsets of the labels; the root has none.
  function Split(s: string): seq<nat> {
    if s == "." then [] else StartsFrom(s, 0)
  }

  lemma {:induction false} StartsFromExactly(s: string, off: nat)
    requires IsStart(s, off) && off <= |s|
    ensures forall p :: p in StartsFrom(s, off) <==> p >= off && IsStart(s, p)
    decreases |s| - off
  {
    hide IsStart, NextLabel;
    var (n, end) := NextLabel(s, off);
    NextLabelFinds(s, off);
    if !end { StartsFromExactly(s, n); }
  }

  // Behind a start: the next one, and none between or behind.
  lemma NextLabelFinds(s: string, off: nat)
    requires IsStart(s, off) && off <= |s|
    ensures var (n, end) := NextLabel(s, off);
            && off < n && (!end ==> n < |s| && IsStart(s, n))
            && forall p :: p > off && (end || p < n) ==> !IsStart(s, p)
  {
    StartNotQuoted(s, off);
    NextFromFinds(s, off, false);
  }

  lemma {:induction false} StartsFromSorted(s: string, off: nat)
    requires off <= |s|
    ensures StartsFrom(s, off) != [] && StartsFrom(s, off)[0] == off
    ensures forall i :: 0 <= i < |StartsFrom(s, off)| ==> off <= StartsFrom(s, off)[i] <= |s|
    ensures forall i, j :: 0 <= i < j < |StartsFrom(s, off)| ==> StartsFrom(s, off)[i] < StartsFrom(s, off)[j]
    decreases |s| - off
  {
    hide NextLabel;
    var (n, end) := NextLabel(s, off);
    if !end { StartsFromSorted(s, n); }
  }

  // Split gives exactly the label starts, in order, for every name.
  lemma SplitExactly(s: string)
    requires s != "."
    ensures forall p :: p in Split(s) <==> IsStart(s, p)
    ensures forall i, j :: 0 <= i < j < |Split(s)| ==> Split(s)[i] < Split(s)[j]
    ensures Split(s) != [] && Split(s)[0] == 0
    ensures forall i :: 0 <= i < |Split(s)| ==> Split(s)[i] <= |s|
  {
    StartsFromExactly(s, 0);
    StartsFromSorted(s, 0);
  }

  // ------------------------------------------------------------------ pieces

  // The text from one start to the next, the last one to the end.
  function Pieces(s: string, starts: seq<nat>): seq<string>
    requires forall i :: 0 <= i < |starts| ==> starts[i] <= |s|
    requires forall i, j :: 0 <= i < j < |starts| ==> starts[i] < starts[j]
  {
    seq(|starts|, i requires 0 <= i < |starts| =>
      if i + 1 < |starts| then s[starts[i]..starts[i + 1]] else s[starts[i]..])
  }

  function Concat(pieces: seq<string>): string {
    if pieces == [] then "" else pieces[0] + Concat(pieces[1..])
  }

  lemma {:induction false} PiecesRejoin(s: string, starts: seq<nat>)
    requires starts != []
    requires forall i :: 0 <= i < |starts| ==> starts[i] <= |s|
    requires forall i, j :: 0 <= i < j < |starts| ==> starts[i] < starts[j]
    ensures Concat(Pieces(s, starts)) == s[starts[0]..]
    decreases starts
  {
    var pieces := Pieces(s, starts);
    if |starts| == 1 {
      assert pieces[1..] == [] && pieces[0] + "" == pieces[0];
    } else {
      assert pieces[1..] == Pieces(s, starts[1..]);
      PiecesRejoin(s, starts[1..]);
      assert s[starts[0]..] == s[starts[0]..starts[1]] + s[starts[1]..];
    }
  }

  // The pieces of a name put together are the name.
  lemma NameRejoins(s: string)
    requires s != "."
    ensures Concat(PiecesOf(s)) == s
  {
    SplitExactly(s);
    PiecesRejoin(s, Split(s));
    assert s[0..] == s;
  }

  // --------------------------------------------------------------- the loops

  method Next(s: string, off: nat) returns (i: nat, end: bool)
    ensures (i, end) == NextLabel(s, off)
  {
    var quote := false;
    i := off;
    while i + 1 < |s|
      invariant NextLabel(s, off) == NextFrom(s, i, quote)
      decreases |s| - i
    {
      if s[i] == '\\' {
        quote := !quote;
      } else if s[i] == '.' && !quote {
        return i + 1, false;
      } else {
        quote := false;
      }
      i := i + 1;
    }
    return i + 1, true;
  }

  method SplitLabels(s: string) returns (idx: seq<nat>)
    ensures idx == Split(s)
  {
    if s == "." { return []; }
    idx := [0];
    var off, end := 0, false;
    ghost var done: seq<nat> := [];
    while true
      invariant idx == done + [off]
      invariant Split(s) == done + StartsFrom(s, off)
      decreases |s| - off
    {
      var here := off;
      off, end := Next(s, off);
      if end { return; }
      assert done + ([here] + StartsFrom(s, off)) == done + [here] + StartsFrom(s, off);
      done := idx;
      idx := idx + [off];
    }
  }

  method CountLabel(s: string) returns (labels: nat)
    ensures labels == |Split(s)|
  {
    if s == "." { return 0; }
    labels := 0;
    var off, end := 0, false;
    while true
      invariant labels + |StartsFrom(s, off)| == |Split(s)|
      decreases |s| - off
    {
      off, end := Next(s, off);
      labels := labels + 1;
      if end { return; }
    }
  }

  function Joined(labels: seq<string>): string {
    if labels == [] then ""
    else if |labels| == 1 then labels[0]
    else labels[0] + "." + Joined(labels[1..])
  }

  lemma {:induction false} JoinedAppends(labels: seq<string>, last: string)
    ensures Joined(labels + [last]) == if labels == [] then last else Joined(labels) + "." + last
    decreases labels
  {
    if labels == [] {
      assert labels + [last] == [last];
    } else {
      assert (labels + [last])[1..] == labels[1..] + [last];
      JoinedAppends(labels[1..], last);
      if |labels| == 1 {
        assert labels[1..] == [];
      }
    }
  }

  // Where the last label ends: at the final dot, if there is one.
  function LastEnd(s: string): nat {
    if s != "" && s[|s| - 1] == '.' then |s| - 1 else |s|
  }

  // The i-th label: up to the dot before the next start, the last one up to the
  // final dot.
  function LabelAt(s: string, i: nat): string
    requires i < |Split(s)|
  {
    SplitExactly(s);
    assert IsStart(s, Split(s)[i]);
    s[Split(s)[i]..if i + 1 < |Split(s)| then Split(s)[i + 1] - 1 else LastEnd(s)]
  }

  function FirstLabels(s: string, n: nat): seq<string>
    requires n <= |Split(s)|
  {
    seq(n, i requires 0 <= i < n => LabelAt(s, i))
  }

  /**
   * The labels of a name, cut exactly at the dots before its label starts. Joined
   * with dots, and the final dot put back, they are the name again.
   */
  method SplitDomainName(s: string) returns (labels: seq<string>)
    ensures labels == if s == "" then [] else FirstLabels(s, |Split(s)|)
    ensures s != "" && s != "." ==> Joined(labels) + (if s[|s| - 1] == '.' then "." else "") == s
  {
    hide Split, IsStart, Joined, Cuts, LabelAt, FirstLabels, LastEnd;
    labels := [];
    NoLabels(s);
    if s == "" { return; }
    var fqdnEnd := LastEnd(s);
    var idx := SplitLabels(s);
    if |idx| == 0 { return; }
    NothingCut(s);
    StartAt(s, 0);
    var begin := 0;
    for i := 1 to |idx|
      invariant begin == idx[i - 1] && labels == FirstLabels(s, i - 1) && Cuts(s, labels, begin)
    {
      var end := idx[i];
      StartAt(s, i);
      LabelIs(s, i - 1);
      CutMore(s, labels, begin, end);
      labels := labels + [s[begin..end - 1]];
      begin := end;
    }
    StartAt(s, |idx| - 1);
    LabelIs(s, |idx| - 1);
    AtFinalDot(s);
    CutLast(s, labels, begin, fqdnEnd);
    labels := labels + [s[begin..fqdnEnd]];
  }

  lemma AtFinalDot(s: string)
    requires s != ""
    ensures LastEnd(s) <= |s| && s[LastEnd(s)..] == if s[|s| - 1] == '.' then "." else ""
  {
  }

  lemma NoLabels(s: string)
    ensures FirstLabels(s, 0) == [] && (Split(s) == [] <==> s == ".")
  {
  }

  lemma LabelIs(s: string, i: nat)
    requires i < |Split(s)|
    ensures FirstLabels(s, i + 1) == FirstLabels(s, i) + [LabelAt(s, i)]
    ensures i + 1 < |Split(s)| ==>
              Split(s)[i] < Split(s)[i + 1] <= |s| && LabelAt(s, i) == s[Split(s)[i]..Split(s)[i + 1] - 1]
    ensures i + 1 == |Split(s)| ==> Split(s)[i] <= LastEnd(s) && LabelAt(s, i) == s[Split(s)[i]..LastEnd(s)]
  {
    SplitExactly(s);
    assert IsStart(s, Split(s)[i]);
    hide Split;
    assert FirstLabels(s, i + 1) == FirstLabels(s, i) + [LabelAt(s, i)];
  }

  // The labels before begin, each with its dot, are the text before begin.
  predicate Cuts(s: string, labels: seq<string>, begin: nat) {
    begin <= |s| && if labels == [] then begin == 0 else Joined(labels) + "." == s[..begin]
  }

  lemma NothingCut(s: string)
    ensures Cuts(s, [], 0)
  {
  }

  lemma CutMore(s: string, labels: seq<string>, begin: nat, end: nat)
    requires Cuts(s, labels, begin) && begin < end <= |s| && IsStart(s, end)
    ensures Cuts(s, labels + [s[begin..end - 1]], end)
  {
    JoinedAppends(labels, s[begin..end - 1]);
    hide Joined;
    assert s[..end] == s[..begin] + s[begin..end - 1] + ".";
  }

  lemma CutLast(s: string, labels: seq<string>, begin: nat, end: nat)
    requires Cuts(s, labels, begin) && begin <= end <= |s|
    ensures Joined(labels + [s[begin..end]]) + s[end..] == s
  {
    JoinedAppends(labels, s[begin..end]);
    hide Joined;
    assert s == s[..begin] + s[begin..end] + s[end..];
  }

  lemma StartAt(s: string, i: nat)
    requires s != "" && s != "." && i < |Split(s)|
    ensures IsStart(s, Split(s)[i]) && Split(s)[0] == 0
    ensures Split(s)[i] <= LastEnd(s)
    ensures i > 0 ==> Split(s)[i - 1] < Split(s)[i]
  {
    SplitExactly(s);
    assert Split(s)[i] in Split(s);
  }

  // ----------------------------------------------------------------- compare

  function Fqdn(s: string): string {
    if s != "" && s[|s| - 1] == '.' then s else s + "."
  }

  function PiecesOf(s: string): seq<string> {
    if s == "." then []
    else
      SplitExactly(s);
      Pieces(s, Split(s))
  }

  // The last n labels are the same, and there is no further pair that is.
  predicate CommonLabels(a: seq<string>, b: seq<string>, n: nat) {
    && n <= |a| && n <= |b| && a[|a| - n..] == b[|b| - n..]
    && (n < |a| && n < |b| ==> a[|a| - n - 1] != b[|b| - n - 1])
  }

  /**
   * How many labels two names have in common from the right, as many as there
   * can be.
   */
  method CompareDomainName(s1: string, s2: string) returns (n: nat)
    ensures CommonLabels(PiecesOf(Fqdn(s1)), PiecesOf(Fqdn(s2)), n)
  {
    hide Split, IsStart, Pieces;
    var t1, t2 := Fqdn(s1), Fqdn(s2);
    var l1 := SplitLabels(t1);
    var l2 := SplitLabels(t2);
    n := 0;
    PieceCount(t1);
    PieceCount(t2);
    if l1 == [] || l2 == [] { return; }
    PieceAt(t1, |l1| - 1);
    PieceAt(t2, |l2| - 1);
    ghost var a, b := PiecesOf(t1), PiecesOf(t2);
    var i1, i2 := |l1| - 1, |l2| - 1;
    if t1[l1[i1]..] != t2[l2[i2]..] { return; }
    n := 1;
    while i1 > 0 && i2 > 0
      invariant 0 <= i1 < |l1| && 0 <= i2 < |l2|
      invariant n == |a| - i1 == |b| - i2
      invariant a[i1..] == b[i2..]
      decreases i1
    {
      PieceAt(t1, i1 - 1);
      PieceAt(t2, i2 - 1);
      if t1[l1[i1 - 1]..l1[i1]] != t2[l2[i2 - 1]..l2[i2]] { return; }
      assert a[i1 - 1..] == [a[i1 - 1]] + a[i1..] && b[i2 - 1..] == [b[i2 - 1]] + b[i2..];
      n := n + 1;
      i1, i2 := i1 - 1, i2 - 1;
    }
  }

  lemma PieceCount(s: string)
    ensures |PiecesOf(s)| == |Split(s)|
  {
  }

  lemma PieceAt(s: string, i: nat)
    requires i < |Split(s)|
    ensures i < |PiecesOf(s)| && Split(s)[i] <= |s|
    ensures i + 1 < |Split(s)| ==>
              Split(s)[i] < Split(s)[i + 1] <= |s| && PiecesOf(s)[i] == s[Split(s)[i]..Split(s)[i + 1]]
    ensures i + 1 == |Split(s)| ==> PiecesOf(s)[i] == s[Split(s)[i]..]
  {
    hide Split, IsStart;
    assert Split(".") == [] by { RootHasNone(); }
    SplitExactly(s);
  }

  lemma RootHasNone()
    ensures Split(".") == []
  {
  }

  // ------------------------------------------------------------------- match

  function LowerChar(c: char): char {
    if 'A' <= c <= 'Z' then ((c as int) + 32) as char else c
  }

  function Lower(s: string): (r: string)
    ensures |r| == |s|
  {
    seq(|s|, i requires 0 <= i < |s| => LowerChar(s[i]))
  }

  // The suffix of a question at a label boundary has a handler.
  predicate Handles<H>(z: map<string, H>, q: string, p: nat) {
    p <= |q| && IsStart(q, p) && Lower(q[p..]) in z
  }

  ghost predicate Longest<H>(z: map<string, H>, q: string, p: nat) {
    Handles(z, q, p) && forall r: nat :: Handles(z, q, r) ==> p <= r
  }

  ghost predicate Shortest<H>(z: map<string, H>, q: string, p: nat) {
    Handles(z, q, p) && forall r: nat :: Handles(z, q, r) ==> r <= p
  }

  /**
   * The handler for a question. For any type but DS it is that of the longest
   * registered suffix, else that of the root, else none. For DS it is that of
   * the root if there is one, and otherwise that of the shortest suffix: of all
   * registered zones above the name, the topmost and not the nearest.
   */
  method Match<H>(z: map<string, H>, q: string, ds: bool) returns (h: Option<H>)
    ensures (forall p: nat :: !Handles(z, q, p)) ==> h == if "." in z then Some(z["."]) else None
    ensures !ds && (exists p: nat :: Handles(z, q, p)) ==>
              exists p: nat :: Longest(z, q, p) && h == Some(z[Lower(q[p..])])
    ensures ds && "." in z ==> h == Some(z["."])
    ensures ds && "." !in z && (exists p: nat :: Handles(z, q, p)) ==>
              exists p: nat :: Shortest(z, q, p) && h == Some(z[Lower(q[p..])])
  {
    hide IsStart, Lower;
    var off, end := 0, false;
    h := None;
    assert IsStart(q, 0) by { ZeroIsStart(q); }
    ghost var best: nat := 0;
    while true
      invariant off <= |q| && IsStart(q, off)
      invariant !ds ==> h == None && forall r: nat :: Handles(z, q, r) ==> off <= r
      invariant h.None? ==> forall r: nat :: Handles(z, q, r) ==> off <= r
      invariant h.Some? ==> Handles(z, q, best) && h == Some(z[Lower(q[best..])])
      invariant h.Some? ==> forall r: nat :: Handles(z, q, r) ==> r <= best || off <= r
      decreases |q| - off
    {
      var b := LowerCopy(q[off..]);
      if b in z {
        if !ds {
          assert Longest(z, q, off);
          return Some(z[b]);
        }
        h, best := Some(z[b]), off;
      }
      NextStart(q, off);
      ghost var here := off;
      off, end := Next(q, off);
      if end {
        assert forall p: nat :: Handles(z, q, p) ==> p <= here;
        break;
      }
      assert forall p: nat :: Handles(z, q, p) ==> p <= here || off <= p;
    }
    assert h.Some? ==> Shortest(z, q, best);
    if "." in z { h := Some(z["."]); }
  }

  lemma ZeroIsStart(s: string)
    ensures IsStart(s, 0)
  {
  }

  // No label begins between a start and the next one.
  lemma NextStart(s: string, off: nat)
    requires off <= |s| && IsStart(s, off)
    ensures var (n, end) := NextLabel(s, off);
            && (!end ==> IsStart(s, n))
            && forall p: nat :: p <= |s| && IsStart(s, p) ==> p <= off || (!end && n <= p)
  {
    StartNotQuoted(s, off);
    NextFromFinds(s, off, false);
  }

  method LowerCopy(s: string) returns (b: string)
    ensures b == Lower(s)
  {
    b := "";
    for i := 0 to |s|
      invariant |b| == i && forall j :: 0 <= j < i ==> b[j] == LowerChar(s[j])
    {
      b := b + [if 'A' <= s[i] <= 'Z' then ((s[i] as int) + 32) as char else s[i]];
    }
  }
}
