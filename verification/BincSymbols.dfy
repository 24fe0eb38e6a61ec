/**
 * Strings and the symbol dictionary of the binc codec (hashicorp/go-msgpack,
 * codec/binc.go).
 *
 * A symbol of two or more bytes is written out the first time, with a number,
 * and later only by its number. Encoder and decoder each keep a dictionary and
 * never exchange it; the numbers are sixteen bits wide and wrap around. Plain
 * strings are counted; encoder and decoder do not agree on long counts.
 */
module BincSymbols {
  import opened Common

  type Str = seq<byte>

  const IDS := 65536
  const MAX_LENGTH := 0x8000_0000_0000_0000 // lengths are signed in the source
  const STRING := 0x40 // bincVdString in the high half
  const BYTES := 0x50 // bincVdByteArray
  const SYMBOL := 0xB0 // bincVdSymbol

  function Pow256(n: nat): (r: nat)
    ensures r > 0
  {
    if n == 0 then 1 else 256 * Pow256(n - 1)
  }

  function BigEndian(x: nat, width: nat): (s: seq<byte>)
    ensures |s| == width
  {
    if width == 0 then [] else BigEndian(x / 256, width - 1) + [x % 256]
  }

  function FromBigEndian(s: seq<byte>): nat {
    if s == [] then 0 else 256 * FromBigEndian(s[..|s| - 1]) + s[|s| - 1]
  }

  lemma {:induction false} BigEndianBack(x: nat, width: nat)
    requires x < Pow256(width)
    ensures FromBigEndian(BigEndian(x, width)) == x
  {
    if width > 0 {
      BigEndianBack(x / 256, width - 1);
      assert BigEndian(x, width)[..width - 1] == BigEndian(x / 256, width - 1);
    }
  }

  // ----------------------------------------------------------------- encoder

  datatype Enc = Enc(m: map<Str, nat>, s: nat)

  // How many bytes the length of a new symbol takes: 1, 2, 4 or 8, as 2^prec.
  function Precision(l: nat): (p: nat)
    ensures p < 4
  {
    if l < 0x100 then 0 else if l < 0x1_0000 then 1 else if l < 0x1_0000_0000 then 2 else 3
  }

  function LengthWidth(prec: nat): nat {
    if prec == 0 then 1 else if prec == 1 then 2 else if prec == 2 then 4 else 8
  }

  // The descriptor with its flags, and the number in one or two bytes.
  function SymbolHead(flags: nat, id: nat): seq<byte>
    requires flags < 8 && id < IDS
  {
    if id < 256 then [SYMBOL + flags, id] else [SYMBOL + 8 + flags] + BigEndian(id, 2)
  }

  predicate EncOk(e: Enc) {
    forall v <- e.m :: e.m[v] < IDS
  }

  function EncodeSymbol(e: Enc, v: Str): (r: (Enc, seq<byte>))
    requires EncOk(e)
    ensures EncOk(r.0)
  {
    var l := |v|;
    if l == 0 then (e, [STRING + 4])
    else if l == 1 then (e, [STRING + 5] + v)
    else if v in e.m then (e, SymbolHead(0, e.m[v]))
    else
      var s := (e.s + 1) % 0x1_0000_0000;
      var id := s % IDS;
      var prec := Precision(l);
      (Enc(e.m[v := id], s), SymbolHead(4 + prec, id) + BigEndian(l, LengthWidth(prec)) + v)
  }

  // ----------------------------------------------------------------- decoder

  datatype Heard = Heard(value: Str, m: map<nat, Str>, index: nat)

  function Take(buf: seq<byte>, i: nat, n: nat): Option<seq<byte>> {
    if i + n > |buf| then None else Some(buf[i..i + n])
  }

  // The count of a plain string, in the descriptor or behind it, and where the
  // string begins.
  function DecodeLength(vs: nat, buf: seq<byte>, at: nat): Option<(nat, nat)> {
    if vs > 3 then Some((vs - 4, at))
    else match Take(buf, at, vs + 1)
      case None => None
      case Some(number) => Some((FromBigEndian(number), at + vs + 1))
  }

  // A count of eight bytes may come out negative, and is then no count at all.
  function AsCount(n: nat): nat {
    if n >= MAX_LENGTH then 0 else n
  }

  // A string at i: a plain one, or a symbol.
  function DecodeString(m: map<nat, Str>, buf: seq<byte>, i: nat): Option<Heard> {
    if i >= |buf| then None else
    var vd, vs := buf[i] / 16, buf[i] % 16;
    if vd == STRING / 16 || vd == BYTES / 16 then
      match DecodeLength(vs, buf, i + 1)
      case None => None
      case Some((n, at)) =>
        match Take(buf, at, n)
        case None => None
        case Some(s) => Some(Heard(s, m, at + n))
    else if vd == SYMBOL / 16 then
      var width := if vs >= 8 then 2 else 1;
      match Take(buf, i + 1, width)
      case None => None
      case Some(number) =>
        var id, at := FromBigEndian(number), i + 1 + width;
        if vs / 4 % 2 == 0 then Some(Heard(if id in m then m[id] else [], m, at))
        else
          var w := LengthWidth(vs % 4);
          match Take(buf, at, w)
          case None => None
          case Some(length) =>
            var n := AsCount(FromBigEndian(length));
            match Take(buf, at + w, n)
            case None => None
            case Some(s) => Some(Heard(s, m[id := s], at + w + n))
    else None
  }

  // ------------------------------------------------------------ plain strings

  // A string or a byte array as it is, behind its count.
  function EncodePlain(raw: bool, v: Str): seq<byte> {
    var bd := if raw then BYTES else STRING;
    if |v| < 12 then [bd + 4 + |v|] + v
    else
      var prec := Precision(|v|);
      [bd + prec] + BigEndian(|v|, LengthWidth(prec)) + v
  }

  lemma CountReads(x: nat, width: nat, buf: seq<byte>, i: nat)
    requires x < Pow256(width) && i <= |buf| && BigEndian(x, width) <= buf[i..]
    ensures Take(buf, i, width) == Some(BigEndian(x, width)) && FromBigEndian(BigEndian(x, width)) == x
  {
    TakeAt(BigEndian(x, width), buf, i);
    BigEndianBack(x, width);
  }

  // The first bytes of a long count are a much smaller one.
  lemma FrontOfCount(x: nat, width: nat, n: nat, buf: seq<byte>, i: nat)
    requires n < width && x < Pow256(width) && i <= |buf| && BigEndian(x, width) <= buf[i..]
    ensures Take(buf, i, n).Some? && FromBigEndian(Take(buf, i, n).value) == x / Pow256(width - n)
  {
    hide BigEndian, FromBigEndian, Pow256;
    var count := BigEndian(x, width);
    PrefixAt(count, buf, i);
    BigEndianFront(x, width, n);
    assert buf[i..i + n] == buf[i..i + width][..n];
    QuotientFits(x, width, n);
    BigEndianBack(x / Pow256(width - n), n);
  }

  lemma {:induction false} PowAdds(a: nat, b: nat)
    ensures Pow256(a + b) == Pow256(a) * Pow256(b)
    decreases b
  {
    if b > 0 {
      PowAdds(a, b - 1);
      Shuffle(Pow256(a), Pow256(b - 1));
    } else {
      assert Pow256(0) == 1;
    }
  }

  lemma Shuffle(a: nat, b: nat)
    ensures 256 * (a * b) == a * (256 * b)
  {
  }

  lemma QuotientFits(x: nat, width: nat, n: nat)
    requires n <= width && x < Pow256(width)
    ensures x / Pow256(width - n) < Pow256(n)
  {
    PowAdds(n, width - n);
    var d, q := Pow256(width - n), x / Pow256(width - n);
    if q >= Pow256(n) { Grows(q, Pow256(n), d); }
  }

  lemma {:induction false} BigEndianFront(x: nat, width: nat, n: nat)
    requires n <= width
    ensures BigEndian(x, width)[..n] == BigEndian(x / Pow256(width - n), n)
    decreases width
  {
    if n == width {
      assert Pow256(0) == 1;
    } else {
      BigEndianFront(x / 256, width - 1, n);
      assert BigEndian(x, width)[..n] == BigEndian(x / 256, width - 1)[..n];
      DivideTwice(x, 256, Pow256(width - 1 - n));
    }
  }

  // ----------------------------------------------------------- whole streams

  // The symbols of a stream in the order of their first appearance.
  function Symbols(vs: seq<Str>): seq<Str> {
    if vs == [] then []
    else
      var syms, v := Symbols(vs[..|vs| - 1]), vs[|vs| - 1];
      if |v| >= 2 && v !in syms then syms + [v] else syms
  }

  function EncodeAll(vs: seq<Str>): (r: (Enc, seq<byte>))
    ensures EncOk(r.0)
  {
    if vs == [] then (Enc(map[], 0), [])
    else
      var (e, out) := EncodeAll(vs[..|vs| - 1]);
      var (e', more) := EncodeSymbol(e, vs[|vs| - 1]);
      (e', out + more)
  }

  datatype Stream = Stream(values: seq<Str>, m: map<nat, Str>, index: nat)

  function DecodeFirst(buf: seq<byte>, n: nat): Option<Stream> {
    if n == 0 then Some(Stream([], map[], 0))
    else match DecodeFirst(buf, n - 1)
      case None => None
      case Some(st) =>
        match DecodeString(st.m, buf, st.index)
        case None => None
        case Some(h) => Some(Stream(st.values + [h.value], h.m, h.index))
  }

  // The number of the i-th symbol.
  function IdOf(i: nat): nat { (i + 1) % IDS }

  // What a decoder knows that has met these symbols.
  function Known(syms: seq<Str>): map<nat, Str> {
    if syms == [] then map[]
    else Known(syms[..|syms| - 1])[IdOf(|syms| - 1) := syms[|syms| - 1]]
  }

  // Later symbols with the same number win.
  lemma {:induction false} KnownAt(syms: seq<Str>, i: nat)
    requires i < |syms|
    ensures IdOf(i) in Known(syms)
    ensures i + IDS >= |syms| ==> Known(syms)[IdOf(i)] == syms[i]
    ensures i + IDS < |syms| ==> exists j :: i < j < |syms| && Known(syms)[IdOf(i)] == syms[j]
    decreases |syms|
  {
    var front, last := syms[..|syms| - 1], |syms| - 1;
    if i < last {
      KnownAt(front, i);
      Apart(i, last);
      if i + IDS < |front| {
        var j :| i < j < |front| && Known(front)[IdOf(i)] == front[j];
        assert front[j] == syms[j];
        assert IdOf(i) == IdOf(last) ==> Known(syms)[IdOf(i)] == syms[last];
        assert IdOf(i) != IdOf(last) ==> Known(syms)[IdOf(i)] == syms[j];
      } else if i + IDS < |syms| {
        assert Known(syms)[IdOf(i)] == syms[last];
      }
    }
  }

  lemma Apart(i: nat, last: nat)
    requires i < last
    ensures last < i + IDS ==> IdOf(i) != IdOf(last)
    ensures last == i + IDS ==> IdOf(i) == IdOf(last)
  {
  }

  // ------------------------------------------------------ the encoder's state

  predicate Distinct(syms: seq<Str>) {
    forall i, j :: 0 <= i < j < |syms| ==> syms[i] != syms[j]
  }

  // The place of a symbol in the list.
  function Place(syms: seq<Str>, v: Str): (i: nat)
    requires v in syms
    ensures i < |syms| && syms[i] == v
  {
    if syms[|syms| - 1] == v then |syms| - 1
    else
      assert v in syms[..|syms| - 1];
      Place(syms[..|syms| - 1], v)
  }

  ghost predicate Numbers(e: Enc, syms: seq<Str>) {
    && e.s == |syms| % 0x1_0000_0000
    && (forall v :: v in e.m <==> v in syms)
    && (forall i :: 0 <= i < |syms| ==> syms[i] in e.m && e.m[syms[i]] == IdOf(i))
  }

  lemma NextNumber(n: nat)
    ensures (n % 0x1_0000_0000 + 1) % 0x1_0000_0000 == (n + 1) % 0x1_0000_0000
    ensures (n + 1) % 0x1_0000_0000 % IDS == IdOf(n)
  {
    var q, r := (n + 1) / 0x1_0000_0000, (n + 1) % 0x1_0000_0000;
    Unique(n + 1, IDS, q * 65536 + r / IDS, r % IDS);
  }

  // A string that is no new symbol leaves the dictionary alone.
  lemma Remembers(e: Enc, v: Str)
    requires EncOk(e)
    ensures EncodeSymbol(e, v).0 ==
            if |v| >= 2 && v !in e.m then
              var s := (e.s + 1) % 0x1_0000_0000;
              Enc(e.m[v := s % IDS], s)
            else e
  {
  }

  lemma NumbersGrow(e: Enc, syms: seq<Str>, v: Str)
    requires EncOk(e) && Numbers(e, syms) && v !in syms && |v| >= 2
    ensures Numbers(EncodeSymbol(e, v).0, syms + [v])
  {
    hide EncodeSymbol, IdOf;
    Remembers(e, v);
    NextNumber(|syms|);
  }

  lemma {:induction false} EncoderNumbers(vs: seq<Str>)
    ensures Distinct(Symbols(vs)) && (forall v <- Symbols(vs) :: |v| >= 2)
    ensures Numbers(EncodeAll(vs).0, Symbols(vs))
  {
    if vs != [] {
      hide EncodeSymbol, Numbers;
      var front, v := vs[..|vs| - 1], vs[|vs| - 1];
      var e, syms := EncodeAll(front).0, Symbols(front);
      EncoderNumbers(front);
      Remembers(e, v);
      Contains(e, syms, v);
      if |v| >= 2 && v !in syms { NumbersGrow(e, syms, v); }
    }
  }

  lemma Contains(e: Enc, syms: seq<Str>, v: Str)
    requires Numbers(e, syms)
    ensures v in e.m <==> v in syms
    ensures v in syms ==> e.m[v] == IdOf(Place(syms, v))
  {
  }

  // ------------------------------------------------------- one string and back

  lemma TakeAt(s: seq<byte>, buf: seq<byte>, i: nat)
    requires i <= |buf| && s <= buf[i..]
    ensures Take(buf, i, |s|) == Some(s)
  {
    assert |s| <= |buf| - i && buf[i..][..|s|] == buf[i..i + |s|] == s;
  }

  lemma FirstByte(s: seq<byte>, buf: seq<byte>, i: nat)
    requires i <= |buf| && s <= buf[i..] && s != []
    ensures i < |buf| && buf[i] == s[0] && s[1..] <= buf[i + 1..]
  {
    assert buf[i] == buf[i..][0];
    assert buf[i..][1..] == buf[i + 1..] && s[1..] <= buf[i..][1..];
  }

  lemma TwoBytes(x: nat)
    requires x < IDS
    ensures FromBigEndian(BigEndian(x, 2)) == x
  {
    assert Pow256(2) == 65536;
    BigEndianBack(x, 2);
  }

  lemma OneByte(b: byte)
    ensures FromBigEndian([b]) == b
  {
    assert [b][..0] == [];
  }

  // The head of a symbol, read back.
  lemma HeadReads(flags: nat, id: nat, buf: seq<byte>, i: nat)
    requires flags < 8 && id < IDS && i <= |buf| && SymbolHead(flags, id) <= buf[i..]
    ensures i < |buf| && buf[i] / 16 == SYMBOL / 16 && buf[i] % 16 % 8 == flags
    ensures var width := if buf[i] % 16 >= 8 then 2 else 1;
            && |SymbolHead(flags, id)| == 1 + width
            && Take(buf, i + 1, width).Some? && FromBigEndian(Take(buf, i + 1, width).value) == id
  {
    hide BigEndian, FromBigEndian;
    var head := SymbolHead(flags, id);
    FirstByte(head, buf, i);
    if id < 256 {
      assert head[1..] == [id];
      OneByte(id);
      TakeAt([id], buf, i + 1);
    } else {
      assert head[1..] == BigEndian(id, 2);
      TwoBytes(id);
      TakeAt(BigEndian(id, 2), buf, i + 1);
    }
  }

  lemma LengthReads(l: nat)
    requires l < 0x1_0000_0000_0000_0000
    ensures FromBigEndian(BigEndian(l, LengthWidth(Precision(l)))) == l
  {
    assert Pow256(1) == 0x100 && Pow256(2) == 0x1_0000 && Pow256(4) == 0x1_0000_0000;
    assert Pow256(8) == Pow256(4) * 0x1_0000_0000;
    BigEndianBack(l, LengthWidth(Precision(l)));
  }

  // A string that is no symbol, or a symbol met before.
  lemma ShortReads(v: Str, m: map<nat, Str>, buf: seq<byte>, i: nat)
    requires |v| < 2 && i <= |buf| && [STRING + 4 + |v|] + v <= buf[i..]
    ensures DecodeString(m, buf, i) == Some(Heard(v, m, i + 1 + |v|))
  {
    var s: seq<byte> := [STRING + 4 + |v|] + v;
    FirstByte(s, buf, i);
    assert s[1..] == v;
    TakeAt(v, buf, i + 1);
  }

  lemma ReferenceReads(id: nat, m: map<nat, Str>, buf: seq<byte>, i: nat)
    requires id < IDS && id in m && i <= |buf| && SymbolHead(0, id) <= buf[i..]
    ensures DecodeString(m, buf, i) == Some(Heard(m[id], m, i + |SymbolHead(0, id)|))
  {
    hide SymbolHead, FromBigEndian;
    HeadReads(0, id, buf, i);
  }

  lemma NewReads(id: nat, v: Str, m: map<nat, Str>, buf: seq<byte>, i: nat)
    requires id < IDS && |v| < MAX_LENGTH && i <= |buf|
    requires NewSymbol(id, v) <= buf[i..]
    ensures DecodeString(m, buf, i) == Some(Heard(v, m[id := v], i + |NewSymbol(id, v)|))
  {
    hide SymbolHead, FromBigEndian, BigEndian, Precision, LengthWidth;
    var prec := Precision(|v|);
    var head, length := SymbolHead(4 + prec, id), BigEndian(|v|, LengthWidth(prec));
    assert NewSymbol(id, v) == head + (length + v);
    PrefixSplits(head, length + v, buf, i);
    HeadReads(4 + prec, id, buf, i);
    PrefixSplits(length, v, buf, i + |head|);
    TakeAt(length, buf, i + |head|);
    LengthReads(|v|);
    TakeAt(v, buf, i + |head| + |length|);
  }

  function NewSymbol(id: nat, v: Str): seq<byte>
    requires id < IDS
  {
    var prec := Precision(|v|);
    SymbolHead(4 + prec, id) + BigEndian(|v|, LengthWidth(prec)) + v
  }

  lemma PowValues()
    ensures Pow256(1) == 0x100 && Pow256(2) == 0x1_0000 && Pow256(4) == 0x1_0000_0000
    ensures Pow256(8) == 0x1_0000_0000_0000_0000
  {
    assert Pow256(2) == 256 * 256;
    assert Pow256(4) == 256 * 256 * Pow256(2);
    assert Pow256(8) == 256 * 256 * 256 * 256 * Pow256(4);
  }

  /**
   * A plain string is read back if and only if it is shorter than 65536 bytes:
   * from then on the encoder writes a count of four or eight bytes, of which the
   * decoder reads the first three or four.
   */
  lemma PlainExactly(raw: bool, v: Str, m: map<nat, Str>, buf: seq<byte>, i: nat)
    requires |v| < MAX_LENGTH && i <= |buf| && EncodePlain(raw, v) <= buf[i..]
    ensures DecodeString(m, buf, i) == Some(Heard(v, m, i + |EncodePlain(raw, v)|)) <==> |v| < 0x1_0000
    ensures |v| >= 0x1_0000 ==> DecodeString(m, buf, i) != None && DecodeString(m, buf, i).value.value != v
  {
    hide BigEndian, FromBigEndian, Pow256, DecodeString, DecodeLength;
    var n := |v|;
    if n < 12 {
      ShortPlainReads(raw, v, m, buf, i);
    } else {
      PlainParts(raw, v, buf, i);
      var width := LengthWidth(Precision(n));
      if n < 0x1_0000 {
        PowValues();
        CountReads(n, width, buf, i + 1);
        TakeAt(v, buf, i + 1 + width);
        CountedLength(Precision(n), buf, i + 1);
        PlainStep(m, buf, i, n, i + 1 + width);
      } else {
        LongCount(n, width, buf, i + 1);
        var r := DecodeLength(Precision(n), buf, i + 1).value;
        PlainStep(m, buf, i, r.0, r.1);
        assert |buf[r.1..r.1 + r.0]| < |v|;
      }
    }
  }

  lemma ShortPlainReads(raw: bool, v: Str, m: map<nat, Str>, buf: seq<byte>, i: nat)
    requires |v| < 12 && i <= |buf| && EncodePlain(raw, v) <= buf[i..]
    ensures DecodeString(m, buf, i) == Some(Heard(v, m, i + |EncodePlain(raw, v)|))
  {
    var all := EncodePlain(raw, v);
    FirstByte(all, buf, i);
    assert all[1..] == v;
    TakeAt(v, buf, i + 1);
  }

  // Where the descriptor, the count and the string of a longer one stand.
  lemma PlainParts(raw: bool, v: Str, buf: seq<byte>, i: nat)
    requires |v| >= 12 && i <= |buf| && EncodePlain(raw, v) <= buf[i..]
    ensures var width := LengthWidth(Precision(|v|));
            && i < |buf| && (buf[i] / 16 == STRING / 16 || buf[i] / 16 == BYTES / 16) && buf[i] % 16 == Precision(|v|)
            && BigEndian(|v|, width) <= buf[i + 1..] && i + 1 + width + |v| <= |buf|
            && v <= buf[i + 1 + width..] && |EncodePlain(raw, v)| == 1 + width + |v|
  {
    hide BigEndian;
    var all, count := EncodePlain(raw, v), BigEndian(|v|, LengthWidth(Precision(|v|)));
    FirstByte(all, buf, i);
    assert all[1..] == count + v;
    PrefixSplits(count, v, buf, i + 1);
  }

  lemma CountedLength(prec: nat, buf: seq<byte>, at: nat)
    requires prec < 2 && Take(buf, at, LengthWidth(prec)).Some?
    ensures var w := LengthWidth(prec);
            DecodeLength(prec, buf, at) == Some((FromBigEndian(Take(buf, at, w).value), at + w))
  {
    hide FromBigEndian;
  }

  lemma PlainStep(m: map<nat, Str>, buf: seq<byte>, i: nat, n: nat, at: nat)
    requires i < |buf| && (buf[i] / 16 == STRING / 16 || buf[i] / 16 == BYTES / 16)
    requires DecodeLength(buf[i] % 16, buf, i + 1) == Some((n, at)) && at + n <= |buf|
    ensures DecodeString(m, buf, i) == Some(Heard(buf[at..at + n], m, at + n))
  {
    hide DecodeLength;
  }

  // What the decoder takes for the count is smaller than the string is long.
  lemma LongCount(n: nat, width: nat, buf: seq<byte>, at: nat)
    requires 0x1_0000 <= n < MAX_LENGTH && width == LengthWidth(Precision(n))
    requires at + width + n <= |buf| && BigEndian(n, width) <= buf[at..]
    ensures var r := DecodeLength(Precision(n), buf, at);
            r.Some? && r.value.0 < n && r.value.1 + r.value.0 <= |buf|
  {
    PowValues();
    hide BigEndian, FromBigEndian;
    var prec := Precision(n);
    FrontOfCount(n, width, prec + 1, buf, at);
    if prec == 2 {
      assert Pow256(1) == 0x100;
    } else {
      assert Pow256(4) == 0x1_0000_0000;
    }
  }

  // ------------------------------------------------------------------ streams

  // What the decoder makes of a string, when it has met these symbols before.
  function HeardAs(syms: seq<Str>, v: Str): Str {
    if |v| >= 2 && v in syms && IdOf(Place(syms, v)) in Known(syms) then Known(syms)[IdOf(Place(syms, v))] else v
  }

  function AllHeard(vs: seq<Str>): (r: seq<Str>)
    ensures |r| == |vs|
  {
    if vs == [] then [] else AllHeard(vs[..|vs| - 1]) + [HeardAs(Symbols(vs[..|vs| - 1]), vs[|vs| - 1])]
  }

  lemma OneHeard(vs: seq<Str>, v: Str, buf: seq<byte>, i: nat)
    requires |v| < MAX_LENGTH && i <= |buf|
    requires EncodeSymbol(EncodeAll(vs).0, v).1 <= buf[i..]
    ensures DecodeString(Known(Symbols(vs)), buf, i) ==
            Some(Heard(HeardAs(Symbols(vs), v), Known(Symbols(vs + [v])), i + |EncodeSymbol(EncodeAll(vs).0, v).1|))
  {
    hide DecodeString, EncodeSymbol, EncodeAll, Numbers, IdOf, Known, Symbols, NewSymbol, SymbolHead;
    var e, syms := EncodeAll(vs).0, Symbols(vs);
    EncoderNumbers(vs);
    Contains(e, syms, v);
    Written(e, v);
    SymbolsOfMore(vs, v);
    if |v| < 2 {
      ShortReads(v, Known(syms), buf, i);
    } else if v in syms {
      KnownAt(syms, Place(syms, v));
      ReferenceReads(e.m[v], Known(syms), buf, i);
    } else {
      CountOf(e, syms);
      NewReads(IdOf(|syms|), v, Known(syms), buf, i);
      KnownGrows(syms, v);
    }
  }

  // The bytes of a string, by its case.
  lemma Written(e: Enc, v: Str)
    requires EncOk(e)
    ensures |v| < 2 ==> EncodeSymbol(e, v).1 == [STRING + 4 + |v|] + v
    ensures |v| >= 2 && v in e.m ==> EncodeSymbol(e, v).1 == SymbolHead(0, e.m[v])
    ensures |v| >= 2 && v !in e.m ==> EncodeSymbol(e, v).1 == NewSymbol((e.s + 1) % 0x1_0000_0000 % IDS, v)
  {
    hide SymbolHead, BigEndian;
    if |v| == 0 { assert [STRING + 4] + v == [STRING + 4]; }
  }

  lemma SymbolsOfMore(vs: seq<Str>, v: Str)
    ensures Symbols(vs + [v]) == if |v| >= 2 && v !in Symbols(vs) then Symbols(vs) + [v] else Symbols(vs)
  {
    assert (vs + [v])[..|vs|] == vs;
  }

  lemma CountOf(e: Enc, syms: seq<Str>)
    requires Numbers(e, syms)
    ensures (e.s + 1) % 0x1_0000_0000 % IDS == IdOf(|syms|) < IDS
  {
    NextNumber(|syms|);
  }

  lemma KnownGrows(syms: seq<Str>, v: Str)
    ensures Known(syms + [v]) == Known(syms)[IdOf(|syms|) := v]
  {
    assert (syms + [v])[..|syms|] == syms;
  }

  lemma {:induction false} StreamHeard(vs: seq<Str>, buf: seq<byte>)
    requires (forall v <- vs :: |v| < MAX_LENGTH) && EncodeAll(vs).1 <= buf
    ensures DecodeFirst(buf, |vs|) == Some(Stream(AllHeard(vs), Known(Symbols(vs)), |EncodeAll(vs).1|))
  {
    hide EncodeSymbol, EncodeAll, DecodeString, DecodeFirst, Known, HeardAs, AllHeard, Symbols;
    if vs == [] {
      NothingHeard(buf);
    } else {
      var front, v := vs[..|vs| - 1], vs[|vs| - 1];
      var out, more := EncodeAll(front).1, EncodeSymbol(EncodeAll(front).0, v).1;
      assert front + [v] == vs && buf[0..] == buf;
      OneMore(front, v);
      PrefixSplits(out, more, buf, 0);
      StreamHeard(front, buf);
      OneHeard(front, v, buf, |out|);
      NextDecoded(buf, |front|);
    }
  }

  lemma OneMore(vs: seq<Str>, v: Str)
    ensures EncodeAll(vs + [v]).1 == EncodeAll(vs).1 + EncodeSymbol(EncodeAll(vs).0, v).1
    ensures AllHeard(vs + [v]) == AllHeard(vs) + [HeardAs(Symbols(vs), v)]
  {
    hide EncodeSymbol, HeardAs, Symbols;
    assert (vs + [v])[..|vs|] == vs;
  }

  lemma NextDecoded(buf: seq<byte>, n: nat)
    requires DecodeFirst(buf, n).Some?
    requires DecodeString(DecodeFirst(buf, n).value.m, buf, DecodeFirst(buf, n).value.index).Some?
    ensures var st := DecodeFirst(buf, n).value;
            var h := DecodeString(st.m, buf, st.index).value;
            DecodeFirst(buf, n + 1) == Some(Stream(st.values + [h.value], h.m, h.index))
  {
    hide DecodeString;
  }

  lemma NothingHeard(buf: seq<byte>)
    ensures Known(Symbols([])) == map[] && AllHeard([]) == [] && EncodeAll([]).1 == []
    ensures DecodeFirst(buf, 0) == Some(Stream([], map[], 0))
  {
  }

  // No symbol is referred to after its number has been given away again.
  predicate Live(vs: seq<Str>) {
    forall p :: 0 <= p < |vs| && vs[p] in Symbols(vs[..p]) ==>
      |Symbols(vs[..p])| <= Place(Symbols(vs[..p]), vs[p]) + IDS
  }

  lemma HeardRight(vs: seq<Str>, v: Str)
    ensures HeardAs(Symbols(vs), v) == v <==>
            (v in Symbols(vs) ==> |Symbols(vs)| <= Place(Symbols(vs), v) + IDS)
  {
    var syms := Symbols(vs);
    EncoderNumbers(vs);
    if v in syms { KnownAt(syms, Place(syms, v)); }
  }

  lemma {:induction false} HeardExactly(vs: seq<Str>)
    ensures AllHeard(vs) == vs <==> Live(vs)
  {
    if vs != [] {
      hide HeardAs, Symbols, Place, Live, AllHeard;
      var front, v := vs[..|vs| - 1], vs[|vs| - 1];
      assert vs == front + [v];
      HeardExactly(front);
      HeardRight(front, v);
      OneMore(front, v);
      assert AllHeard(vs)[..|front|] == AllHeard(front) && AllHeard(vs)[|front|] == HeardAs(Symbols(front), v);
      LiveSplits(vs);
    }
  }

  lemma LiveSplits(vs: seq<Str>)
    requires vs != []
    ensures var front, v := vs[..|vs| - 1], vs[|vs| - 1];
            Live(vs) <==> Live(front) && (v in Symbols(front) ==> |Symbols(front)| <= Place(Symbols(front), v) + IDS)
  {
    hide Symbols, Place;
    var front, last := vs[..|vs| - 1], |vs| - 1;
    assert forall p :: 0 <= p < |front| ==> front[p] == vs[p] && front[..p] == vs[..p];
    if Live(front) && (vs[last] in Symbols(front) ==> |Symbols(front)| <= Place(Symbols(front), vs[last]) + IDS) {
      forall p | 0 <= p < |vs| && vs[p] in Symbols(vs[..p])
        ensures |Symbols(vs[..p])| <= Place(Symbols(vs[..p]), vs[p]) + IDS
      {
        if p < last { assert front[p] in Symbols(front[..p]); }
      }
    }
    if Live(vs) {
      forall p | 0 <= p < |front| && front[p] in Symbols(front[..p])
        ensures |Symbols(front[..p])| <= Place(Symbols(front[..p]), front[p]) + IDS
      {
        assert vs[p] in Symbols(vs[..p]);
      }
      assert vs[last] in Symbols(vs[..last]) ==> |Symbols(front)| <= Place(Symbols(front), vs[last]) + IDS;
    }
  }

  /**
   * The two dictionaries stay in step: a stream of strings decodes to itself if
   * and only if no string is repeated after 65536 other new symbols have come.
   */
  lemma RoundTripExactly(vs: seq<Str>)
    requires forall v <- vs :: |v| < MAX_LENGTH
    ensures DecodeFirst(EncodeAll(vs).1, |vs|).Some?
    ensures DecodeFirst(EncodeAll(vs).1, |vs|).value.values == vs <==> Live(vs)
  {
    StreamHeard(vs, EncodeAll(vs).1);
    HeardExactly(vs);
  }

  lemma {:induction false} SymbolsGrow(vs: seq<Str>, p: nat)
    requires p <= |vs|
    ensures |Symbols(vs[..p])| <= |Symbols(vs)|
    decreases |vs|
  {
    if p < |vs| {
      assert vs[..|vs| - 1][..p] == vs[..p];
      SymbolsGrow(vs[..|vs| - 1], p);
    } else {
      assert vs[..p] == vs;
    }
  }

  // In particular, every stream with at most 65536 different symbols.
  lemma FewSymbolsLive(vs: seq<Str>)
    requires |Symbols(vs)| <= IDS
    ensures Live(vs)
  {
    forall p | 0 <= p < |vs| && vs[p] in Symbols(vs[..p])
      ensures |Symbols(vs[..p])| <= Place(Symbols(vs[..p]), vs[p]) + IDS
    {
      SymbolsGrow(vs, p);
    }
  }

  // -------------------------------------------------------------- the drivers

  class Encoder {
    var m: map<Str, nat>
    var s: nat
    var out: seq<byte>

    ghost predicate Valid() reads this { EncOk(Enc(m, s)) }

    constructor ()
      ensures Valid() && m == map[] && s == 0 && out == []
    {
      m, s, out := map[], 0, [];
    }

    // A plain string, which leaves the dictionary alone.
    method Plain(raw: bool, v: Str)
      modifies this`out
      ensures out == old(out) + EncodePlain(raw, v)
    {
      hide BigEndian;
      var bd := if raw then BYTES else STRING;
      if |v| < 12 {
        out := out + [bd + 4 + |v|];
      } else {
        var prec := Precision(|v|);
        out := out + [bd + prec];
        out := out + BigEndian(|v|, LengthWidth(prec));
      }
      if |v| > 0 { out := out + v; }
    }

    method Symbol(v: Str)
      requires Valid()
      modifies this
      ensures Valid()
      ensures var (e, more) := EncodeSymbol(Enc(old(m), old(s)), v);
              Enc(m, s) == e && out == old(out) + more
    {
      hide BigEndian;
      if |v| == 0 {
        out := out + [STRING + 4];
        return;
      }
      if |v| == 1 {
        out := out + [STRING + 5] + v;
        return;
      }
      if v in m {
        out := out + SymbolHead(0, m[v]);
      } else {
        s := (s + 1) % 0x1_0000_0000;
        var id := s % IDS;
        m := m[v := id];
        var prec := Precision(|v|);
        out := out + SymbolHead(4 + prec, id);
        out := out + BigEndian(|v|, LengthWidth(prec));
        out := out + v;
      }
    }
  }

  class Decoder {
    var m: map<nat, Str>
    var index: nat
    const buf: seq<byte>

    constructor (bytes: seq<byte>)
      ensures m == map[] && index == 0 && buf == bytes
    {
      m, index, buf := map[], 0, bytes;
    }

    method String() returns (r: Option<Str>)
      modifies this
      ensures match DecodeString(old(m), buf, old(index))
              case None => r == None && m == old(m)
              case Some(h) => r == Some(h.value) && m == h.m && index == h.index
    {
      if index >= |buf| { return None; }
      var vd, vs := buf[index] / 16, buf[index] % 16;
      if vd == STRING / 16 || vd == BYTES / 16 {
        var n, at := vs - 4, index + 1;
        if vs <= 3 {
          var number := Take(buf, at, vs + 1);
          if number.None? { return None; }
          n, at := FromBigEndian(number.value), at + vs + 1;
        }
        r := Take(buf, at, n);
        if r.Some? { index := at + n; }
        return;
      }
      if vd != SYMBOL / 16 { return None; }
      var width := if vs >= 8 then 2 else 1;
      var number := Take(buf, index + 1, width);
      if number.None? { return None; }
      var id := FromBigEndian(number.value);
      var at := index + 1 + width;
      if vs / 4 % 2 == 0 {
        index := at;
        return Some(if id in m then m[id] else []);
      }
      var w := LengthWidth(vs % 4);
      var length := Take(buf, at, w);
      if length.None? { return None; }
      var n := AsCount(FromBigEndian(length.value));
      r := Take(buf, at + w, n);
      if r.Some? {
        m := m[id := r.value];
        index := at + w + n;
      }
    }
  }
}
