/**
 * Packing a domain name (packDomainName in miekg/dns, msg.go).
 *
 * The packer works on a copy of the text, which it unescapes in place by
 * shifting the rest to the left, and cuts into labels at the dots it meets.
 * `PackLoop` is that loop on values. Without compression it is proved to write
 * the wire form of the labels that an ordinary tokenizer finds in the text.
 */
module DnsPack {
  import opened Common
  import opened DnsName

  // ------------------------------------------------- the text, by its grammar

  datatype Token = Byte(b: byte) | Stop

  predicate IsDigit(b: byte) { 48 <= b <= 57 }

  // Three digits, in the arithmetic of one byte.
  function DddToByte(a: int, b: int, c: int): byte {
    ((a - 48) * 100 + (b - 48) * 10 + (c - 48)) % 256
  }

  predicate StartsDdd(t: seq<byte>) {
    |t| >= 3 && IsDigit(t[0]) && IsDigit(t[1]) && IsDigit(t[2])
  }

  // The byte a backslash and the bytes t behind it stand for.
  function Unescape(t: seq<byte>): byte
    requires t != []
  {
    if StartsDdd(t) then DddToByte(t[0], t[1], t[2]) else Letter(t[0])
  }

  // A tab, a carriage return or a newline by its letter; any other byte itself.
  function Letter(b: byte): byte {
    if b == 116 then 9 else if b == 114 then 13 else if b == 110 then 10 else b
  }

  // What is taken for a backslash and these bytes: three digits are a number, modulo
  // 256; t, r and n are tab, return and newline; any other byte is itself.
  lemma UnescapeExactly(t: seq<byte>)
    requires t != []
    ensures StartsDdd(t) <==> |t| >= 3 && forall i :: 0 <= i < 3 ==> 48 <= t[i] <= 57
    ensures var b := Unescape(t);
            if StartsDdd(t) then
              b as int == (100 * (t[0] - 48) as int + 10 * (t[1] - 48) as int + (t[2] - 48) as int) % 256
            else if t[0] == 't' as int then b == 9
            else if t[0] == 'r' as int then b == 13
            else if t[0] == 'n' as int then b == 10
            else b == t[0]
  {
    assert |t| >= 3 && (forall i :: 0 <= i < 3 ==> 48 <= t[i] <= 57) ==>
      48 <= t[0] <= 57 && 48 <= t[1] <= 57 && 48 <= t[2] <= 57;
  }

  function Tokens(t: seq<byte>): seq<Token> {
    if t == [] then []
    else if t[0] == BACKSLASH && |t| > 1 then
      [Byte(Unescape(t[1..]))] + Tokens(t[if StartsDdd(t[1..]) then 4 else 2..])
    else if t[0] == DOT then [Stop] + Tokens(t[1..])
    else [Byte(t[0])] + Tokens(t[1..])
  }

  // The labels that are closed by a stop; `open` is the label begun before.
  function Cut(tokens: seq<Token>, open: Label): seq<Label> {
    if tokens == [] then []
    else match tokens[0]
      case Byte(b) => Cut(tokens[1..], open + [b])
      case Stop => [open] + Cut(tokens[1..], [])
  }

  function Parse(text: seq<byte>): seq<Label> {
    Cut(Tokens(text), [])
  }

  lemma CutStep(t: seq<byte>, open: Label)
    ensures t == [] ==> Cut(Tokens(t), open) == []
    ensures t != [] && t[0] == DOT ==> Cut(Tokens(t), open) == [open] + Parse(t[1..])
    ensures t != [] && t[0] != DOT && t[0] != BACKSLASH ==>
              Cut(Tokens(t), open) == Cut(Tokens(t[1..]), open + [t[0]])
  {
  }

  lemma CutByte(b: byte, rest: seq<Token>, open: Label)
    ensures Cut([Byte(b)] + rest, open) == Cut(rest, open + [b])
  {
    assert ([Byte(b)] + rest)[1..] == rest;
  }

  // --------------------------------------------- text of labels parses back

  lemma ThreeDigits(b: byte)
    ensures IsDigit(48 + b / 100) && IsDigit(48 + b / 10 % 10) && IsDigit(48 + b % 10)
    ensures DddToByte(48 + b / 100, 48 + b / 10 % 10, 48 + b % 10) == b
  {
    assert b / 10 / 10 == b / 100;
    assert b == 100 * (b / 100) + 10 * (b / 10 % 10) + b % 10;
  }

  lemma TokensOfEscape(b: byte, rest: seq<byte>)
    ensures Tokens(Escape(b) + rest) == [Byte(b)] + Tokens(rest)
  {
    hide Tokens;
    if NeedsBackslash(b) {
      TokensOfLetter(b, rest);
    } else if b == 9 {
      TokensOfLetter(116, rest);
    } else if b == 13 {
      TokensOfLetter(114, rest);
    } else if b < 32 || b >= 127 {
      TokensOfDdd(b, rest);
    } else {
      TokensOfPlain(b, rest);
    }
  }

  lemma TokensOfLetter(c: byte, rest: seq<byte>)
    requires !IsDigit(c)
    ensures Tokens([BACKSLASH, c] + rest) == [Byte(Letter(c))] + Tokens(rest)
  {
    var t := [BACKSLASH, c] + rest;
    assert t[1..][0] == c && t[2..] == rest;
  }

  lemma TokensOfDdd(b: byte, rest: seq<byte>)
    ensures Tokens([BACKSLASH, 48 + b / 100, 48 + b / 10 % 10, 48 + b % 10] + rest) == [Byte(b)] + Tokens(rest)
  {
    ThreeDigits(b);
    hide IsDigit, DddToByte;
    var t := [BACKSLASH, 48 + b / 100, 48 + b / 10 % 10, 48 + b % 10] + rest;
    assert t[1..][0] == t[1] && t[1..][1] == t[2] && t[1..][2] == t[3];
    assert t[4..] == rest;
  }

  lemma TokensOfPlain(b: byte, rest: seq<byte>)
    requires b != BACKSLASH && b != DOT
    ensures Tokens([b] + rest) == [Byte(b)] + Tokens(rest)
  {
    assert ([b] + rest)[1..] == rest;
  }

  lemma {:induction false} CutOfText(l: Label, open: Label, rest: seq<byte>)
    ensures Cut(Tokens(EscapeAll(l) + [DOT] + rest), open) == [open + l] + Parse(rest)
    decreases l
  {
    hide Escape, Tokens, Cut;
    var t := EscapeAll(l) + [DOT] + rest;
    if l == [] {
      assert t == [DOT] + rest && t[1..] == rest && open + l == open;
      CutStep(t, open);
    } else {
      var t' := EscapeAll(l[1..]) + [DOT] + rest;
      assert t == Escape(l[0]) + t';
      TokensOfEscape(l[0], t');
      CutByte(l[0], Tokens(t'), open);
      CutOfText(l[1..], open + [l[0]], rest);
      assert open + [l[0]] + l[1..] == open + l;
    }
  }

  // Text is a faithful notation: it parses back to the labels it came from,
  // whatever bytes they hold.
  lemma {:induction false} ParseOfText(labels: seq<Label>)
    ensures Parse(Text(labels)) == labels
  {
    hide EscapeAll, Tokens, Cut;
    CutStep([], []);
    if labels != [] {
      CutOfText(labels[0], [], Text(labels[1..]));
      ParseOfText(labels[1..]);
      assert [] + labels[0] == labels[0];
      assert [labels[0]] + labels[1..] == labels;
    }
  }

  // ---------------------------------------------------------------- the loop

  type Table = map<seq<byte>, nat>

  const MAX_OFFSET := 16384

  // Every offset of the table fits the 14 bits of a pointer.
  predicate InRange(table: Table) {
    forall k <- table :: table[k] < MAX_OFFSET
  }

  datatype Result =
    | Packed(msg: seq<byte>, table: Table, end: nat, labels: nat)
    | Refused(msg: seq<byte>, table: Table, fault: Fault)

  function Put(msg: seq<byte>, off: nat, bytes: seq<byte>): (r: seq<byte>)
    requires off + |bytes| <= |msg|
    ensures |r| == |msg|
  {
    msg[..off] + bytes + msg[off + |bytes|..]
  }

  lemma PutKeepsPrefix(msg: seq<byte>, off: nat, bytes: seq<byte>)
    requires off + |bytes| <= |msg|
    ensures Put(msg, off, bytes)[..off] == msg[..off]
    ensures Put(msg, off, bytes)[..off + |bytes|] == msg[..off] + bytes
  {
  }

  // The live part bs[..ls] moved over `width` bytes at i; the tail is left stale.
  function Shift(bs: seq<byte>, i: nat, ls: nat, width: nat): (r: seq<byte>)
    requires i + width <= ls <= |bs|
    ensures |r| == |bs|
  {
    bs[..i] + bs[i + width..ls] + bs[ls - width..]
  }

  // The buffer behind an escape at i, and what is left of the live part.
  function Unescaped(bs: seq<byte>, i: nat, ls: nat): (r: (seq<byte>, nat))
    requires i + 1 < ls <= |bs| && bs[ls - 1] == DOT
    ensures |r.0| == |bs| && i < r.1 < ls
    ensures i + 1 < r.1 ==> r.0[r.1 - 1] == DOT
  {
    var moved, n := Shift(bs, i, ls, 1), ls - 1;
    if StartsDdd(moved[i..n]) then
      assert moved[n - 1] == DOT && moved[i + 2] == moved[i..n][2];
      (Shift(moved[i := Unescape(moved[i..n])], i + 1, n, 2), n - 2)
    else
      (moved[i := Unescape(moved[i..n])], n)
  }

  // Behind the last label: a zero byte, except that the root is already there.
  function Close(bs: seq<byte>, msg: seq<byte>, off: nat, table: Table, labels: nat): Result
    requires off <= |msg|
  {
    if |bs| == 1 && bs[0] == DOT then Packed(msg, table, off, labels)
    else if off == |msg| then Refused(msg, table, IndexPanic)
    else Packed(Put(msg, off, [0]), table, off + 1, labels)
  }

  function PointerBytes(target: nat): seq<byte>
    requires target < MAX_OFFSET
  {
    [192 + target / 256, target % 256]
  }

  // What a dot brings: the end of the loop, or the next label.
  datatype Turn = Ends(r: Result) | Goes(msg: seq<byte>, off: nat, table: Table)

  // At the dot that closes the label bs[begin..i].
  function AtDot(bs: seq<byte>, i: nat, begin: nat, escapedDot: bool, msg: seq<byte>, off: nat, table: Table,
                 labels: nat, compress: bool): (r: Turn)
    requires begin <= i < |bs| && off <= |msg| && InRange(table)
    ensures r.Ends? ==> |r.r.msg| == |msg| && InRange(r.r.table) && (r.r.Packed? ==> off <= r.r.end <= |msg|)
    ensures r.Goes? ==> |r.msg| == |msg| && off <= r.off <= |msg| && InRange(r.table)
  {
    if i > 0 && bs[i - 1] == DOT && !escapedDot then Ends(Refused(msg, table, BadData))
    else if i - begin >= 64 then Ends(Refused(msg, table, BadData))
    else
      var counted := [(i - begin) as byte] + bs[begin..i];
      if off + |counted| > |msg| then
        Ends(Refused(Put(msg, off, counted[..|msg| - off]), table, BufferTooSmall))
      else
        var msg' := Put(msg, off, counted);
        var key := bs[begin..];
        if compress && key != [DOT] && key in table then
          if off + 1 >= |msg| then Ends(Refused(msg', table, IndexPanic))
          else Ends(Packed(Put(msg', off, PointerBytes(table[key])), table, off + 2, labels))
        else if compress && key != [DOT] && off < MAX_OFFSET then
          Goes(msg', off + |counted|, table[key := off])
        else
          Goes(msg', off + |counted|, table)
  }

  /**
   * The loop at position i of the buffer, whose live part is bs[..ls]; the open
   * label began at `begin` and will be written at `off`.
   */
  function PackLoop(bs: seq<byte>, ls: nat, i: nat, begin: nat, escapedDot: bool,
                    msg: seq<byte>, off: nat, table: Table, labels: nat, compress: bool): (r: Result)
    requires begin <= i <= ls <= |bs| && off <= |msg|
    requires i < ls ==> bs[ls - 1] == DOT
    requires InRange(table)
    ensures |r.msg| == |msg| && (r.Packed? ==> off <= r.end <= |msg|)
    ensures InRange(r.table)
    decreases ls - i
  {
    if i == ls then Close(bs, msg, off, table, labels)
    else if bs[i] == BACKSLASH then
      if off + 1 > |msg| then Refused(msg, table, BufferTooSmall) else
      var (next, n) := Unescaped(bs, i, ls);
      PackLoop(next, n, i + 1, begin, next[i] == DOT, msg, off, table, labels, compress)
    else if bs[i] != DOT then
      PackLoop(bs, ls, i + 1, begin, false, msg, off, table, labels, compress)
    else match AtDot(bs, i, begin, escapedDot, msg, off, table, labels, compress)
      case Ends(r) => r
      case Goes(msg', off', table') => PackLoop(bs, ls, i + 1, i + 1, false, msg', off', table', labels + 1, compress)
  }

  function Pack(s: seq<byte>, msg: seq<byte>, off: nat, table: Table, compress: bool): (r: Result)
    requires off <= |msg|
    requires InRange(table)
    ensures |r.msg| == |msg| && (r.Packed? ==> off <= r.end <= |msg|)
    ensures InRange(r.table)
  {
    if s == [] then Packed(msg, table, off, 0)
    else if s[|s| - 1] != DOT then Refused(msg, table, NotQualified)
    else PackLoop(s, |s|, 0, 0, false, msg, off, table, 0, compress)
  }

  // ------------------------------------------------------------- the packer

  class Compression {
    var at: Table
    constructor ()
      ensures at == map[]
    {
      at := map[];
    }
  }

  method ShiftLeft(bs: array<byte>, i: nat, ls: nat, width: nat)
    requires i + width <= ls <= bs.Length
    modifies bs
    ensures bs[..] == Shift(old(bs[..]), i, ls, width)
  {
    hide Shift;
    ghost var s := bs[..];
    for j := i to ls - width
      invariant forall k :: i <= k < j ==> bs[k] == s[k + width]
      invariant forall k :: 0 <= k < i || j <= k < bs.Length ==> bs[k] == s[k]
    {
      bs[j] := bs[j + width];
    }
    ShiftIs(s, bs[..], i, ls, width);
  }

  lemma ShiftIs(s: seq<byte>, t: seq<byte>, i: nat, ls: nat, width: nat)
    requires i + width <= ls <= |s| == |t|
    requires forall k :: i <= k < ls - width ==> t[k] == s[k + width]
    requires forall k :: 0 <= k < i || ls - width <= k < |s| ==> t[k] == s[k]
    ensures t == Shift(s, i, ls, width)
  {
    var r := Shift(s, i, ls, width);
    forall k | 0 <= k < |s| ensures t[k] == r[k] {
      if i <= k < ls - width { assert r[k] == s[i + width..ls][k - i]; }
    }
  }

  lemma ShiftKeepsLast(bs: seq<byte>, i: nat, ls: nat)
    requires i + 1 < ls <= |bs|
    ensures Shift(bs, i, ls, 1)[ls - 2] == bs[ls - 1]
  {
  }

  method Copy(s: seq<byte>) returns (bs: array<byte>)
    ensures fresh(bs) && bs[..] == s
  {
    bs := new byte[|s|](i requires 0 <= i < |s| => s[i]);
  }

  // Unescapes in place at i; the new length of the live part.
  method UnescapeAt(bs: array<byte>, i: nat, ls: nat) returns (n: nat)
    requires i + 1 < ls <= bs.Length && bs[ls - 1] == DOT
    modifies bs
    ensures (bs[..], n) == Unescaped(old(bs[..]), i, ls)
  {
    hide IsDigit, DddToByte, Letter, Shift;
    ShiftKeepsLast(bs[..], i, ls);
    ShiftLeft(bs, i, ls, 1);
    n := ls - 1;
    ghost var moved := bs[..];
    ghost var t := moved[i..n];
    assert |t| >= 3 ==> t[0] == bs[i] && t[1] == bs[i + 1] && t[2] == bs[i + 2];
    if i + 2 < n && IsDigit(bs[i]) && IsDigit(bs[i + 1]) && IsDigit(bs[i + 2]) {
      assert moved[n - 1] == DOT;
      bs[i] := DddToByte(bs[i], bs[i + 1], bs[i + 2]);
      assert bs[..] == moved[i := Unescape(t)];
      ShiftLeft(bs, i + 1, n, 2);
      n := n - 2;
    } else {
      UnescapeLetter(bs, i);
      assert bs[..] == moved[i := Unescape(t)];
    }
  }

  method UnescapeLetter(bs: array<byte>, i: nat)
    requires i < bs.Length
    modifies bs
    ensures bs[..] == old(bs[..])[i := Letter(old(bs[i]))]
  {
    if bs[i] == 116 {
      bs[i] := 9;
    } else if bs[i] == 114 {
      bs[i] := 13;
    } else if bs[i] == 110 {
      bs[i] := 10;
    }
  }

  // An offset beyond the end has as little room as the end itself.
  function Within(off: nat, length: nat): nat {
    if off <= length then off else length
  }

  // Writes the label bs[begin..i] with its length at off, as far as there is room.
  method WriteLabel(msg: array<byte>, off: nat, bs: array<byte>, begin: nat, i: nat) returns (ok: bool)
    requires begin <= i <= bs.Length && i - begin < 64 && msg != bs
    modifies msg
    ensures ok <==> off + 1 + i - begin <= msg.Length
    ensures var counted, at := [(i - begin) as byte] + bs[begin..i], Within(off, msg.Length);
            msg[..] == Put(old(msg[..]), at, if ok then counted else counted[..msg.Length - at])
  {
    hide Put;
    ghost var before := msg[..];
    ghost var counted := [(i - begin) as byte] + bs[begin..i];
    PutNothing(before, Within(off, msg.Length), counted[..0]);
    if off + 1 > msg.Length { return false; }
    PutOne(before, off, i - begin);
    msg[off] := i - begin;
    assert counted[..1] == [i - begin];
    for j := begin to i
      invariant off + 1 + j - begin <= msg.Length
      invariant msg[..] == Put(before, off, counted[..1 + j - begin])
    {
      var at := off + 1 + j - begin;
      if at + 1 > msg.Length { return false; }
      assert counted[1 + j - begin] == bs[begin..i][j - begin] == bs[j];
      NextTaken(counted, 1 + j - begin);
      PutMore(before, off, counted[..1 + j - begin], bs[j]);
      msg[at] := bs[j];
    }
    assert counted[..1 + i - begin] == counted;
    return true;
  }

  predicate Agrees(r: Result, msg: seq<byte>, table: Table, end: nat, labels: nat, fault: Option<Fault>) {
    match r
    case Packed(m, t, e, n) => fault == None && m == msg && t == table && e == end && n == labels
    case Refused(m, t, f) => fault == Some(f) && m == msg && t == table
  }

  // Closes a label: writes it, and looks for its suffix in the table.
  method EndLabel(bs: array<byte>, i: nat, begin: nat, escapedDot: bool, msg: array<byte>, off: nat,
                  table: Compression, labels: nat, compress: bool)
    returns (stop: bool, next: nat, fault: Option<Fault>)
    requires begin <= i < bs.Length && InRange(table.at) && msg != bs
    modifies msg, table
    ensures match AtDot(bs[..], i, begin, escapedDot, old(msg[..]), Within(off, msg.Length), old(table.at), labels,
                        compress)
            case Goes(m, o, t) => !stop && fault == None && msg[..] == m && next == o && table.at == t
            case Ends(r) => stop && Agrees(r, msg[..], table.at, next, labels, fault)
    ensures off > msg.Length ==> stop && fault.Some? && msg[..] == old(msg[..]) && table.at == old(table.at)
    ensures !stop ==> off < next <= msg.Length
  {
    hide Put, InRange;
    next := off;
    PutNothing(msg[..], Within(off, msg.Length), []);
    if i > 0 && bs[i - 1] == DOT && !escapedDot { return true, off, Some(BadData); }
    if i - begin >= 64 { return true, off, Some(BadData); }
    var key := bs[begin..];
    assert key == bs[..][begin..] && bs[begin..i] == bs[..][begin..i];
    var ok := WriteLabel(msg, off, bs, begin, i);
    if !ok { return true, off, Some(BufferTooSmall); }
    if compress && key != [DOT] {
      if key in table.at {
        if off + 1 >= msg.Length { return true, off, Some(IndexPanic); }
        InRangeAt(table.at, key);
        next := WritePointer(msg, off, table.at[key]);
        return true, next, None;
      }
      if off < MAX_OFFSET {
        InRangeWith(table.at, key, off);
        table.at := table.at[key := off];
      }
    }
    return false, off + 1 + i - begin, None;
  }

  /**
   * The packer: on every text, buffer and offset, and every table of 14-bit
   * offsets, it leaves the message and the table as `Pack` says, and answers its
   * outcome. Beyond the end of the buffer only the empty text can be packed,
   * which is nowhere written.
   */
  method PackDomainName(s: seq<byte>, msg: array<byte>, start: nat, table: Compression, compress: bool)
    returns (end: nat, labels: nat, fault: Option<Fault>)
    requires InRange(table.at)
    modifies msg, table
    ensures s == [] ==> fault == None && end == start && labels == 0
    ensures s == [] ==> msg[..] == old(msg[..]) && table.at == old(table.at)
    ensures s != [] ==>
              Agrees(Pack(s, old(msg[..]), Within(start, msg.Length), old(table.at), compress),
                     msg[..], table.at, end, labels, fault)
    ensures s != [] && start > msg.Length ==>
              fault.Some? && msg[..] == old(msg[..]) && table.at == old(table.at)
  {
    hide Unescaped, Put, InRange, AtDot;
    ghost var spec := Pack(s, msg[..], Within(start, msg.Length), table.at, compress);
    end, labels, fault := start, 0, None;
    if s == [] { return; }
    if s[|s| - 1] != DOT {
      fault := Some(NotQualified);
      return;
    }
    var bs := Copy(s);
    hide Pack;
    var off, ls, i, begin, escapedDot := start, |s|, 0, 0, false;
    while i < ls
      invariant begin <= i <= ls <= bs.Length && start <= off
      invariant off <= msg.Length || (off == start && i < ls && msg[..] == old(msg[..]) && table.at == old(table.at))
      invariant i < ls ==> bs[ls - 1] == DOT
      invariant InRange(table.at)
      invariant fault == None
      invariant spec == PackLoop(bs[..], ls, i, begin, escapedDot, msg[..], Within(off, msg.Length), table.at, labels,
                                 compress)
      decreases ls - i
    {
      if bs[i] == BACKSLASH {
        if off + 1 > msg.Length {
          fault := Some(BufferTooSmall);
          return;
        }
        ls := UnescapeAt(bs, i, ls);
        escapedDot := bs[i] == DOT;
        i := i + 1;
        continue;
      }
      if bs[i] == DOT {
        var stop;
        stop, off, fault := EndLabel(bs, i, begin, escapedDot, msg, off, table, labels, compress);
        if stop {
          end := off;
          return;
        }
        labels := labels + 1;
        begin := i + 1;
      }
      escapedDot := false;
      i := i + 1;
    }
    if bs.Length == 1 && bs[0] == DOT {
      end := off;
      return;
    }
    if off == msg.Length {
      fault := Some(IndexPanic);
      return;
    }
    PutOne(msg[..], off, 0);
    msg[off] := 0;
    end := off + 1;
  }

  lemma InRangeAt(table: Table, key: seq<byte>)
    requires InRange(table) && key in table
    ensures table[key] < MAX_OFFSET
  {
  }

  lemma InRangeWith(table: Table, key: seq<byte>, off: nat)
    requires InRange(table) && off < MAX_OFFSET
    ensures InRange(table[key := off])
  {
  }

  lemma NextTaken(s: seq<byte>, k: nat)
    requires k < |s|
    ensures s[..k + 1] == s[..k] + [s[k]]
  {
  }

  lemma PutOne(msg: seq<byte>, off: nat, b: byte)
    requires off < |msg|
    ensures msg[off := b] == Put(msg, off, [b])
  {
  }

  lemma PutNothing(msg: seq<byte>, off: nat, none: seq<byte>)
    requires off <= |msg| && none == []
    ensures Put(msg, off, none) == msg
  {
  }

  lemma PutMore(msg: seq<byte>, off: nat, bytes: seq<byte>, b: byte)
    requires off + |bytes| < |msg|
    ensures Put(msg, off, bytes)[off + |bytes| := b] == Put(msg, off, bytes + [b])
  {
  }

  method WritePointer(msg: array<byte>, at: nat, target: nat) returns (end: nat)
    requires at + 1 < msg.Length && target < MAX_OFFSET
    modifies msg
    ensures msg[..] == Put(old(msg[..]), at, PointerBytes(target)) && end == at + 2
  {
    msg[at], msg[at + 1] := 192 + target / 256, target % 256;
    return at + 2;
  }

  // ------------------------------------------------- what the loop writes

  // No empty label but a leading one, none longer than 63 bytes.
  predicate Acceptable(labels: seq<Label>, first: bool) {
    labels == [] ||
    (|labels[0]| <= MAX_LABEL && (labels[0] != [] || first) && Acceptable(labels[1..], false))
  }

  function WireLength(labels: seq<Label>): nat {
    if labels == [] then 1 else 1 + |labels[0]| + WireLength(labels[1..])
  }

  lemma AcceptableFits(labels: seq<Label>, first: bool)
    requires Acceptable(labels, first)
    ensures forall l <- labels :: |l| <= MAX_LABEL
    ensures |Wire(labels)| == WireLength(labels)
  {
    if labels != [] {
      AcceptableFits(labels[1..], false);
      assert labels == [labels[0]] + labels[1..];
    }
  }

  // An escape costs the buffer its length, and leaves the decoded byte and the
  // unread text in place.
  lemma UnescapedIs(bs: seq<byte>, i: nat, ls: nat)
    requires i + 1 < ls <= |bs| && bs[ls - 1] == DOT && bs[i] == BACKSLASH
    ensures var (next, n) := Unescaped(bs, i, ls);
            && next[..i] == bs[..i]
            && Tokens(bs[i..ls]) == [Byte(next[i])] + Tokens(next[i + 1..n])
  {
    var moved, n := Shift(bs, i, ls, 1), ls - 1;
    var t := bs[i..ls];
    assert moved[i..n] == t[1..];
    var (next, m) := Unescaped(bs, i, ls);
    assert next[i] == Unescape(t[1..]);
    if StartsDdd(t[1..]) {
      assert next[i + 1..m] == moved[i + 3..n] == t[4..];
    } else {
      assert next[i + 1..m] == moved[i + 1..n] == t[2..];
    }
  }

  // The labels ahead of the loop, at an escape, at any other byte and at a dot.
  lemma CutAtEscape(bs: seq<byte>, ls: nat, i: nat, begin: nat)
    requires begin <= i && i + 1 < ls <= |bs| && bs[ls - 1] == DOT && bs[i] == BACKSLASH
    ensures var (next, m) := Unescaped(bs, i, ls);
            Cut(Tokens(bs[i..ls]), bs[begin..i]) == Cut(Tokens(next[i + 1..m]), next[begin..i + 1])
  {
    hide Unescaped, Tokens, Cut;
    UnescapedIs(bs, i, ls);
    var (next, m) := Unescaped(bs, i, ls);
    CutByte(next[i], Tokens(next[i + 1..m]), bs[begin..i]);
    assert next[begin..i + 1] == bs[begin..i] + [next[i]];
  }

  lemma CutAtByte(bs: seq<byte>, ls: nat, i: nat, begin: nat)
    requires begin <= i < ls <= |bs| && bs[i] != BACKSLASH && bs[i] != DOT
    ensures Cut(Tokens(bs[i..ls]), bs[begin..i]) == Cut(Tokens(bs[i + 1..ls]), bs[begin..i + 1])
  {
    hide Tokens, Cut;
    CutStep(bs[i..ls], bs[begin..i]);
    assert bs[i..ls][1..] == bs[i + 1..ls] && bs[begin..i + 1] == bs[begin..i] + [bs[i]];
  }

  lemma CutAtDot(bs: seq<byte>, ls: nat, i: nat, begin: nat)
    requires begin <= i < ls <= |bs| && bs[i] == DOT
    ensures Cut(Tokens(bs[i..ls]), bs[begin..i]) == [bs[begin..i]] + Cut(Tokens(bs[i + 1..ls]), bs[i + 1..i + 1])
  {
    hide Tokens, Cut;
    CutStep(bs[i..ls], bs[begin..i]);
    assert bs[i..ls][1..] == bs[i + 1..ls] && bs[i + 1..i + 1] == [];
  }

  lemma CutAtEnd(bs: seq<byte>, ls: nat, begin: nat)
    requires begin <= ls <= |bs|
    ensures Cut(Tokens(bs[ls..ls]), bs[begin..ls]) == []
  {
    CutStep(bs[ls..ls], bs[begin..ls]);
  }

  // r is the outcome of writing these labels at off, as far as they are
  // acceptable and there is room.
  predicate Writes(r: Result, labels: seq<Label>, first: bool, msg: seq<byte>, off: nat, table: Table, n: nat)
    requires off <= |msg|
  {
    && r.table == table && |r.msg| == |msg| && r.msg[..off] == msg[..off]
    && (r.Packed? <==> Acceptable(labels, first) && off + WireLength(labels) <= |msg|)
    && (r.Packed? ==>
          && r.end == off + WireLength(labels) && r.labels == n + |labels|
          && (forall l <- labels :: |l| <= MAX_LABEL)
          && |Wire(labels)| == WireLength(labels)
          && r.msg == Put(msg, off, Wire(labels)))
    && (r.Refused? && r.fault == BadData ==> !Acceptable(labels, first))
    && (r.Refused? && r.fault != BadData ==>
          off + WireLength(labels) > |msg| && (r.fault == BufferTooSmall || r.fault == IndexPanic))
  }

  // The open label is the part behind the last separator, and escapedDot tells
  // a dot inside it from a separator.
  predicate Coherent(bs: seq<byte>, i: nat, begin: nat, escapedDot: bool)
    requires begin <= i <= |bs|
  {
    && (i == begin ==> !escapedDot && (i > 0 ==> bs[i - 1] == DOT))
    && (i > begin && bs[i - 1] == DOT ==> escapedDot)
  }

  lemma {:induction false} LoopWrites(bs: seq<byte>, ls: nat, i: nat, begin: nat, escapedDot: bool,
                                      msg: seq<byte>, off: nat, table: Table, n: nat)
    requires begin <= i <= ls <= |bs| && off <= |msg| && |bs| > 1
    requires i < ls ==> bs[ls - 1] == DOT
    requires InRange(table)
    requires Coherent(bs, i, begin, escapedDot)
    ensures Writes(PackLoop(bs, ls, i, begin, escapedDot, msg, off, table, n, false),
                   Cut(Tokens(bs[i..ls]), bs[begin..i]), begin == 0, msg, off, table, n)
    decreases ls - i
  {
    hide Unescaped, Writes, Put, Tokens, Cut, InRange, AtDot;
    if i == ls {
      CutAtEnd(bs, ls, begin);
      NothingLeft(bs, msg, off, begin == 0, table, n);
    } else if bs[i] == BACKSLASH {
      if off < |msg| {
        CutAtEscape(bs, ls, i, begin);
        var (next, m) := Unescaped(bs, i, ls);
        LoopWrites(next, m, i + 1, begin, next[i] == DOT, msg, off, table, n);
      } else {
        NoRoom(msg, Cut(Tokens(bs[i..ls]), bs[begin..i]), begin == 0, msg, off, table, n);
      }
    } else if bs[i] != DOT {
      CutAtByte(bs, ls, i, begin);
      LoopWrites(bs, ls, i + 1, begin, false, msg, off, table, n);
    } else {
      CutAtDot(bs, ls, i, begin);
      AtDotIs(bs, i, begin, escapedDot, msg, off, table, n);
      var l, rest := bs[begin..i], Cut(Tokens(bs[i + 1..ls]), bs[i + 1..i + 1]);
      if !(|l| <= MAX_LABEL && (l != [] || begin == 0)) {
        NotAcceptable(l, rest, begin == 0, msg, off, table, n);
      } else if off + 1 + |l| > |msg| {
        var clipped := Put(msg, off, ([|l| as byte] + l)[..|msg| - off]);
        PutKeepsPrefix(msg, off, ([|l| as byte] + l)[..|msg| - off]);
        NoRoom(clipped, [l] + rest, begin == 0, msg, off, table, n);
      } else {
        var counted := [|l| as byte] + l;
        var msg' := Put(msg, off, counted);
        LoopWrites(bs, ls, i + 1, i + 1, false, msg', off + |counted|, table, n + 1);
        LabelWritten(PackLoop(bs, ls, i + 1, i + 1, false, msg', off + |counted|, table, n + 1, false),
                     l, rest, begin == 0, msg, off, table, n);
      }
    }
  }

  // A dot without compression, by the label in front of it.
  lemma AtDotIs(bs: seq<byte>, i: nat, begin: nat, escapedDot: bool, msg: seq<byte>, off: nat, table: Table, n: nat)
    requires begin <= i < |bs| && off <= |msg| && InRange(table) && Coherent(bs, i, begin, escapedDot)
    ensures var l := bs[begin..i];
            AtDot(bs, i, begin, escapedDot, msg, off, table, n, false) ==
            if !(|l| <= MAX_LABEL && (l != [] || begin == 0)) then Ends(Refused(msg, table, BadData))
            else if off + 1 + |l| > |msg| then
              Ends(Refused(Put(msg, off, ([|l| as byte] + l)[..|msg| - off]), table, BufferTooSmall))
            else Goes(Put(msg, off, [|l| as byte] + l), off + 1 + |l|, table)
  {
    hide Put, InRange;
  }

  lemma NothingLeft(bs: seq<byte>, msg: seq<byte>, off: nat, first: bool, table: Table, n: nat)
    requires off <= |msg| && |bs| > 1
    ensures Writes(Close(bs, msg, off, table, n), [], first, msg, off, table, n)
  {
  }

  lemma NotAcceptable(l: Label, rest: seq<Label>, first: bool, msg: seq<byte>, off: nat, table: Table, n: nat)
    requires off <= |msg| && (|l| > MAX_LABEL || (l == [] && !first))
    ensures Writes(Refused(msg, table, BadData), [l] + rest, first, msg, off, table, n)
  {
  }

  lemma NoRoom(clipped: seq<byte>, labels: seq<Label>, first: bool, msg: seq<byte>, off: nat, table: Table, n: nat)
    requires off <= |msg| == |clipped| && clipped[..off] == msg[..off]
    requires off == |msg| || (labels != [] && off + 1 + |labels[0]| > |msg|)
    ensures Writes(Refused(clipped, table, BufferTooSmall), labels, first, msg, off, table, n)
  {
  }

  lemma LabelWritten(r: Result, l: Label, rest: seq<Label>, first: bool, msg: seq<byte>, off: nat, table: Table, n: nat)
    requires |l| <= MAX_LABEL && (l != [] || first) && off + 1 + |l| <= |msg|
    requires Writes(r, rest, false, Put(msg, off, [|l| as byte] + l), off + 1 + |l|, table, n + 1)
    ensures Writes(r, [l] + rest, first, msg, off, table, n)
  {
    hide Put, Acceptable, WireLength, Wire;
    var counted := [|l| as byte] + l;
    LabelInFront(l, rest, first);
    PutKeepsPrefix(msg, off, counted);
    assert r.msg[..off] == r.msg[..off + |counted|][..off] == msg[..off];
    if r.Packed? { PutTwice(msg, off, counted, Wire(rest)); }
  }

  lemma LabelInFront(l: Label, rest: seq<Label>, first: bool)
    requires |l| <= MAX_LABEL && (l != [] || first)
    ensures Acceptable([l] + rest, first) <==> Acceptable(rest, false)
    ensures WireLength([l] + rest) == 1 + |l| + WireLength(rest)
    ensures Acceptable(rest, false) ==>
              && (forall k <- [l] + rest :: |k| <= MAX_LABEL)
              && |Wire([l] + rest)| == WireLength([l] + rest)
              && Wire([l] + rest) == [|l| as byte] + l + Wire(rest)
  {
    assert ([l] + rest)[1..] == rest;
    if Acceptable(rest, false) {
      AcceptableFits(rest, false);
      AcceptableFits([l] + rest, first);
    }
  }

  lemma PutTwice(msg: seq<byte>, off: nat, a: seq<byte>, b: seq<byte>)
    requires off + |a| + |b| <= |msg|
    ensures Put(Put(msg, off, a), off + |a|, b) == Put(msg, off, a + b)
  {
  }

  // Without compression a name packs exactly when its labels are acceptable and
  // there is room, and then the message holds their wire form at that place.
  lemma PackWrites(s: seq<byte>, msg: seq<byte>, off: nat, table: Table)
    requires off <= |msg| && |s| > 1 && s[|s| - 1] == DOT
    requires InRange(table)
    ensures Writes(Pack(s, msg, off, table, false), Parse(s), true, msg, off, table, 0)
  {
    LoopWrites(s, |s|, 0, 0, false, msg, off, table, 0);
    assert s[0..|s|] == s && s[0..0] == [];
  }

  // The root is one zero byte.
  lemma RootPacks(msg: seq<byte>, off: nat, table: Table, compress: bool)
    requires off < |msg| && InRange(table)
    ensures Pack([DOT], msg, off, table, compress) == Packed(Put(msg, off, [0]), table, off + 1, 1)
  {
    var s: seq<byte> := [DOT];
    assert s[0..] == [DOT] && [0 as byte] + s[0..0] == [0];
    var msg' := Put(msg, off, [0]);
    assert PackLoop(s, 1, 1, 1, false, msg', off + 1, table, 1, compress) == Packed(msg', table, off + 1, 1);
  }

  /**
   * Wire to text to wire: a name of labels of 1 to 63 arbitrary bytes, standing
   * uncompressed anywhere in a message, unpacks to a text that packs to the
   * same bytes, wherever there is room for them.
   */
  lemma WireTextWire(labels: seq<Label>, msg: seq<byte>, at: nat, dest: seq<byte>, off: nat, table: Table)
    requires forall l <- labels :: 1 <= |l| <= MAX_LABEL
    requires at <= |msg| && Wire(labels) <= msg[at..]
    requires off + |Wire(labels)| <= |dest|
    requires InRange(table)
    ensures Unpack(msg, at) == Unpacked(Display(labels), at + |Wire(labels)|)
    ensures var r := Pack(Display(labels), dest, off, table, false);
            r.Packed? && r.table == table && r.msg == Put(dest, off, Wire(labels)) && r.end == off + |Wire(labels)|
  {
    WireDenotes(msg, at, labels);
    UnpackDenoted(msg, at, labels, []);
    if labels == [] {
      RootPacks(dest, off, table, false);
    } else {
      ParseOfText(labels);
      NonEmptyAcceptable(labels);
      TextEndsInDot(labels);
      PackWrites(Text(labels), dest, off, table);
    }
  }

  lemma NonEmptyAcceptable(labels: seq<Label>)
    requires forall l <- labels :: 1 <= |l| <= MAX_LABEL
    ensures Acceptable(labels, false) && Acceptable(labels, true)
    ensures |Wire(labels)| == WireLength(labels)
  {
    if labels != [] { NonEmptyAcceptable(labels[1..]); }
    AcceptableFits(labels, false);
  }

  lemma {:induction false} TextEndsInDot(labels: seq<Label>)
    requires labels != [] && labels[0] != []
    ensures |Text(labels)| > 1 && Text(labels)[|Text(labels)| - 1] == DOT
  {
    var l := labels[0];
    assert |EscapeAll(l)| >= |Escape(l[0])| >= 1;
    if |labels| > 1 { TextOfTail(labels[1..]); }
  }

  lemma TextOfTail(labels: seq<Label>)
    requires labels != []
    ensures Text(labels) != [] && Text(labels)[|Text(labels)| - 1] == DOT
  {
    if |labels| > 1 { TextOfTail(labels[1..]); }
  }
}
