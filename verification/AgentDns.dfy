/**
 * The agent's nameserver (agent/dns.go): how a question is cut down to the part
 * in front of the agent's domain and dispatched, and how the nameservers of a
 * zone are numbered, advertised and asked for by number.
 */
module AgentDns {
  import opened Common
  import DnsLabels

  datatype QType = A | NS | SRV | Other

  datatype Instance = Instance(host: string, ip: nat, port: nat)

  datatype RR = ARecord(name: string, ip: nat) | NsRecord(name: string, target: string)
              | SrvRecord(name: string, port: nat, target: string)

  datatype Rcode = Success | NameError | ServerFailure

  // What the handler leaves in the response.
  datatype Response = Response(rcode: Rcode, authoritative: bool, answer: seq<RR>, soa: bool)

  datatype Lookup = Found(instances: seq<Instance>) | NoInstances | Failed

  /**
   * The store as it stands during the questions, and the sort used on its
   * servers, which must give the same list each time; nothing else is asked of
   * it here.
   */
  datatype Store = Store(servers: string -> Lookup, instances: Info -> Lookup, sorted: seq<Instance> -> seq<Instance>)

  // What names a service; the provider is never set.
  datatype Info = Info(service: string, job: string, env: string, product: string, zone: string)

  // ----------------------------------------------------------------- patterns

  predicate IsDigit(c: char) { '0' <= c <= '9' }

  predicate IsAlnum(c: char) { IsDigit(c) || 'a' <= c <= 'z' || 'A' <= c <= 'Z' }

  predicate IsDigits(s: string) { s != "" && forall c <- s :: IsDigit(c) }

  // ns[0-9]+
  predicate IsNameserver(s: string) { |s| > 2 && s[..2] == "ns" && IsDigits(s[2..]) }

  predicate IsZone(s: string) { |s| == 2 && IsAlnum(s[0]) && IsAlnum(s[1]) }

  function Split(s: string, open: string): (fields: seq<string>)
    ensures |fields| >= 1
    decreases s
  {
    if s == "" then [open]
    else if s[0] == '.' then [open] + Split(s[1..], "")
    else Split(s[1..], open + [s[0]])
  }

  predicate IsLabel(s: string) { s != "" && forall c <- s :: IsAlnum(c) || c == '-' }

  predicate IsServiceQuestion(name: string) {
    var fields := Split(name, "");
    |fields| == 5 && (forall i :: 0 <= i < 4 ==> IsLabel(fields[i])) && IsZone(fields[4])
  }

  // At most n fields, the last one with the dots that are left.
  function SplitN(s: string, open: string, n: nat): (fields: seq<string>)
    requires n > 0
    ensures 1 <= |fields| <= n
    decreases s
  {
    if s == "" || n == 1 then [open + s]
    else if s[0] == '.' then [open] + SplitN(s[1..], "", n - 1)
    else SplitN(s[1..], open + [s[0]], n)
  }

  function InfoFromAddr(addr: string): Option<Info> {
    var fields := SplitN(addr, "", 5);
    if |fields| != 5 || !IsZone(fields[4]) then None
    else if !IsLabel(fields[3]) || !IsLabel(fields[2]) || !IsLabel(fields[1]) || !IsLabel(fields[0]) then None
    else Some(Info(fields[0], fields[1], fields[2], fields[3], fields[4]))
  }

  predicate IsServerQuestion(name: string) {
    var fields := Split(name, "");
    || name == ""
    || IsNameserver(name) || IsZone(name)
    || (|fields| == 2 && IsNameserver(fields[0]) && IsZone(fields[1]))
  }

  // ------------------------------------------------------------------ numbers

  function Decimal(n: nat): (s: string)
    ensures IsDigits(s)
  {
    if n < 10 then [Digit(n)] else Decimal(n / 10) + [Digit(n % 10)]
  }

  function Digit(n: nat): (c: char)
    requires n < 10
    ensures IsDigit(c)
  {
    ('0' as int + n) as char
  }

  function Number(s: string): nat
    requires forall c <- s :: IsDigit(c)
  {
    if s == "" then 0
    else
      assert IsDigit(s[|s| - 1]);
      10 * Number(s[..|s| - 1]) + (s[|s| - 1] as int - '0' as int)
  }

  lemma {:induction false} NumberOfDecimal(n: nat)
    ensures Number(Decimal(n)) == n
  {
    var s := Decimal(n);
    if n < 10 {
      assert s[..0] == "";
    } else {
      NumberOfDecimal(n / 10);
      assert s[..|s| - 1] == Decimal(n / 10) && s[|s| - 1] == Digit(n % 10);
    }
  }

  const MAX_INT := 0x7fff_ffff_ffff_ffff

  // ------------------------------------------------------------------ handler

  predicate HasSuffix(s: string, suffix: string) {
    |suffix| <= |s| && s[|s| - |suffix|..] == suffix
  }

  // The last place at or before i where sub stands in s, or -1.
  function LastIndex(s: string, sub: string, i: int): (r: int)
    requires -1 <= i <= |s| - |sub|
    ensures -1 <= r <= i
    decreases i + 1
  {
    if i < 0 then -1
    else if s[i..i + |sub|] == sub then i
    else LastIndex(s, sub, i - 1)
  }

  // The part of a name in front of the domain.
  function Trim(name: string, domain: string): string {
    var sub := "." + domain;
    if |sub| > |name| then "" else
    var i := LastIndex(name, sub, |name| - |sub|);
    if i > 0 then name[..i] else ""
  }

  function ParseServerQuestion(name: string): (string, string) {
    var fields := Split(name, "");
    if |fields| == 1 then (if IsNameserver(fields[0]) then (fields[0], "") else ("", fields[0]))
    else if |fields| == 2 then (fields[0], fields[1])
    else ("", "")
  }

  function NewRR(qname: string, qtype: QType, i: Instance): RR {
    match qtype
    case A => ARecord(qname, i.ip)
    case NS => NsRecord(qname, DnsLabels.Fqdn(i.host))
    case _ => SrvRecord(qname, i.port, DnsLabels.Fqdn(i.host))
  }

  function Advertised(i: nat, qname: string): string {
    "ns" + Decimal(i) + "." + qname
  }

  function ServerResponse(store: Store, name: string, qname: string, qtype: QType): Response {
    var empty := Response(Success, true, [], false);
    if qtype != A && qtype != NS then empty else
    var (ns, zone) := ParseServerQuestion(name);
    if ns != "" && qtype == NS then empty else
    var found := store.servers(zone);
    if found.Failed? then empty.(rcode := ServerFailure) else
    var servers := store.sorted(if found.Found? then found.instances else []);
    if ns == "" then
      empty.(answer := seq(|servers|, i requires 0 <= i < |servers| =>
        NewRR(qname, qtype, servers[i].(host := Advertised(i, qname)))))
    else if |ns| < 2 || !IsDigits(ns[2..]) || Number(ns[2..]) > MAX_INT then empty.(rcode := NameError)
    else if |servers| <= Number(ns[2..]) then empty
    else empty.(answer := [NewRR(qname, qtype, servers[Number(ns[2..])])])
  }

  function ServiceResponse(store: Store, name: string, qname: string, qtype: QType): Response {
    var empty := Response(Success, true, [], false);
    if qtype != A && qtype != SRV then empty
    else if InfoFromAddr(name).None? then empty.(rcode := NameError)
    else match store.instances(InfoFromAddr(name).value)
      case NoInstances => empty.(rcode := NameError)
      case Failed => empty.(rcode := ServerFailure)
      case Found(all) => empty.(answer := seq(|all|, i requires 0 <= i < |all| => NewRR(qname, qtype, all[i])))
  }

  // One question.
  function Serve(store: Store, domain: string, qname: string, qtype: QType): Response {
    if !HasSuffix(qname, domain) then Response(NameError, false, [], false) else
    var name := Trim(qname, domain);
    if IsServiceQuestion(name) then ServiceResponse(store, name, qname, qtype)
    else if IsServerQuestion(name) then ServerResponse(store, name, qname, qtype)
    else Response(NameError, true, [], true)
  }

  // -------------------------------------------------------------- numbering

  lemma {:induction false} SplitAt(a: string, rest: string, open: string)
    requires '.' !in a
    ensures Split(a + "." + rest, open) == [open + a] + Split(rest, "")
    ensures Split(a, open) == [open + a]
    decreases a
  {
    var s := a + "." + rest;
    if a == "" {
      assert s[1..] == rest && open + a == open;
    } else {
      assert s[1..] == a[1..] + "." + rest;
      SplitAt(a[1..], rest, open + [a[0]]);
      assert open + [a[0]] + a[1..] == open + a;
    }
  }

  // sub stands in s at k.
  predicate At(s: string, sub: string, k: int) {
    0 <= k && k + |sub| <= |s| && s[k..k + |sub|] == sub
  }

  lemma {:induction false} LastIndexIs(s: string, sub: string, i: int, p: int)
    requires -1 <= p <= i <= |s| - |sub| && (p >= 0 ==> At(s, sub, p))
    requires forall k :: p < k <= i ==> !At(s, sub, k)
    ensures LastIndex(s, sub, i) == p
    decreases i + 1
  {
    if i > p {
      assert !At(s, sub, i);
      LastIndexIs(s, sub, i - 1, p);
    }
  }

  // The last place of the domain behind a dot, or -1, decides what is kept.
  lemma TrimIs(s: string, domain: string, p: int)
    requires p == -1 || At(s, "." + domain, p)
    requires forall k :: p < k ==> !At(s, "." + domain, k)
    ensures Trim(s, domain) == if p > 0 then s[..p] else ""
  {
    var sub := "." + domain;
    if |sub| <= |s| { LastIndexIs(s, sub, |s| - |sub|, p); }
  }

  lemma {:induction false} LastPlace(s: string, sub: string, i: int) returns (p: int)
    requires forall k :: i < k ==> !At(s, sub, k)
    requires i >= -1
    ensures p == -1 || At(s, sub, p)
    ensures forall k :: p < k ==> !At(s, sub, k)
    decreases i + 1
  {
    if i < 0 || At(s, sub, i) { p := i; } else { p := LastPlace(s, sub, i - 1); }
  }

  // Where the name ends in the domain behind a dot, all in front is kept.
  lemma TrimKeeps(front: string, domain: string)
    requires front != ""
    ensures Trim(front + "." + domain, domain) == front
    ensures HasSuffix(front + "." + domain, domain)
  {
    var s, sub := front + "." + domain, "." + domain;
    assert s[|front|..|front| + |sub|] == sub && s[..|front|] == front;
    assert s[|s| - |domain|..] == domain;
    TrimIs(s, domain, |front|);
  }

  // What is kept of a name behind one more label. In front of a name from which
  // nothing is kept it depends on whether the name begins with the domain.
  lemma TrimBehindLabel(ns: string, qname: string, domain: string)
    requires ns != "" && '.' !in ns
    ensures var s, name := ns + "." + qname, Trim(qname, domain);
            Trim(s, domain) ==
              if name != "" then ns + "." + name
              else if "." + domain <= qname then ns + "."
              else if domain <= qname then ns
              else ""
  {
    hide Trim, At;
    StandsFirst(qname, "." + domain);
    var p := LastPlace(qname, "." + domain, |qname|);
    TrimIs(qname, domain, p);
    if p >= 0 {
      KeptBehindLabel(ns, qname, domain, p);
    } else {
      NotKeptBehindLabel(ns, qname, domain);
    }
  }

  lemma StandsFirst(s: string, sub: string)
    ensures At(s, sub, 0) <==> sub <= s
    ensures forall k :: k > |s| ==> !At(s, sub, k)
  {
    if At(s, sub, 0) { assert sub == s[..|sub|]; }
  }

  lemma KeptBehindLabel(ns: string, qname: string, domain: string, p: nat)
    requires At(qname, "." + domain, p) && forall k :: p < k ==> !At(qname, "." + domain, k)
    ensures p <= |qname| && Trim(ns + "." + qname, domain) == ns + "." + qname[..p]
  {
    hide Trim;
    var s, at := ns + "." + qname, |ns| + 1;
    Shifted(ns, qname, "." + domain);
    LaterShifted(ns, qname, "." + domain, p);
    assert At(s, "." + domain, at + p);
    TrimIs(s, domain, at + p);
    assert s[..at + p] == ns + "." + qname[..p];
  }

  lemma NotKeptBehindLabel(ns: string, qname: string, domain: string)
    requires ns != "" && '.' !in ns && forall k :: -1 < k ==> !At(qname, "." + domain, k)
    ensures Trim(ns + "." + qname, domain) == if domain <= qname then ns else ""
  {
    hide Trim, At;
    var s := ns + "." + qname;
    LaterShifted(ns, qname, "." + domain, -1);
    FirstPlace(ns, qname, domain);
    TrimIs(s, domain, if domain <= qname then |ns| else -1);
    assert s[..|ns|] == ns;
  }

  lemma Shifted(ns: string, qname: string, sub: string)
    ensures forall k :: 0 <= k ==> (At(ns + "." + qname, sub, |ns| + 1 + k) <==> At(qname, sub, k))
  {
    var s, at := ns + "." + qname, |ns| + 1;
    forall k | 0 <= k ensures At(s, sub, at + k) <==> At(qname, sub, k) {
      if k + |sub| <= |qname| { assert s[at + k..at + k + |sub|] == qname[k..k + |sub|]; }
    }
  }

  lemma LaterShifted(ns: string, qname: string, sub: string, p: int)
    requires p >= -1 && forall k :: p < k ==> !At(qname, sub, k)
    ensures forall k :: |ns| + 1 + p < k ==> !At(ns + "." + qname, sub, k)
  {
    Shifted(ns, qname, sub);
    forall k | |ns| + 1 + p < k ensures !At(ns + "." + qname, sub, k) {
      assert k == |ns| + 1 + (k - |ns| - 1);
      assert !At(qname, sub, k - |ns| - 1);
    }
  }

  // A dot stands in front of nothing of the label, and of the name only.
  lemma FirstPlace(ns: string, qname: string, domain: string)
    requires '.' !in ns
    ensures At(ns + "." + qname, "." + domain, |ns|) <==> domain <= qname
    ensures forall k :: k < |ns| ==> !At(ns + "." + qname, "." + domain, k)
  {
    var s, sub := ns + "." + qname, "." + domain;
    forall k | k < |ns| ensures !At(s, sub, k) {
      if 0 <= k { assert s[k] == ns[k] != sub[0]; }
    }
    if At(s, sub, |ns|) {
      assert s[|ns|..|ns| + |sub|][1..] == qname[..|domain|];
      assert sub[1..] == domain;
    }
    if domain <= qname {
      assert s[|ns|..|ns| + |sub|] == sub;
    }
  }

  lemma SuffixBehindLabel(ns: string, qname: string, domain: string)
    requires HasSuffix(qname, domain)
    ensures HasSuffix(ns + "." + qname, domain)
  {
    var s := ns + "." + qname;
    assert s[|s| - |domain|..] == qname[|qname| - |domain|..];
  }

  lemma NameserverOf(i: nat)
    ensures IsNameserver("ns" + Decimal(i)) && '.' !in "ns" + Decimal(i)
    ensures ("ns" + Decimal(i))[2..] == Decimal(i) && Number(Decimal(i)) == i
  {
    var s := "ns" + Decimal(i);
    assert s[..2] == "ns" && s[2..] == Decimal(i);
    NumberOfDecimal(i);
  }

  // The name under which a zone is asked for; the empty zone is the domain itself.
  function ZoneName(zone: string, domain: string): string {
    if zone == "" then domain else zone + "." + domain
  }

  function ZoneServers(store: Store, zone: string): seq<Instance> {
    store.sorted(if store.servers(zone).Found? then store.servers(zone).instances else [])
  }

  // A zone, or nothing: the servers are to be listed.
  predicate AsksForList(name: string) { name == "" || IsZone(name) }

  lemma ListQuestion(name: string)
    requires AsksForList(name)
    ensures '.' !in name && Split(name, "") == [name]
    ensures IsServerQuestion(name) && !IsServiceQuestion(name) && ParseServerQuestion(name) == ("", name)
  {
    SplitAt(name, "", "");
    assert "" + name == name;
  }

  // What is asked for by ns and a number, in front of a zone or alone.
  function NumberedName(i: nat, zone: string): string {
    if zone == "" then "ns" + Decimal(i) else "ns" + Decimal(i) + "." + zone
  }

  lemma NumberQuestion(i: nat, zone: string)
    requires AsksForList(zone)
    ensures var name := NumberedName(i, zone);
            && IsServerQuestion(name) && !IsServiceQuestion(name)
            && ParseServerQuestion(name) == ("ns" + Decimal(i), zone)
  {
    NumberedQuestion(Decimal(i), zone);
  }

  // The same for any digits, leading zeros included.
  lemma NumberedQuestion(digits: string, zone: string)
    requires IsDigits(digits) && AsksForList(zone)
    ensures var ns := "ns" + digits;
            var name := if zone == "" then ns else ns + "." + zone;
            && IsServerQuestion(name) && !IsServiceQuestion(name) && ParseServerQuestion(name) == (ns, zone)
  {
    hide Number;
    var ns := "ns" + digits;
    assert ns[..2] == "ns" && ns[2..] == digits;
    ListQuestion(zone);
    SplitAt(ns, zone, "");
    assert "" + ns == ns;
  }

  lemma DanglingQuestion(i: nat)
    ensures var name := "ns" + Decimal(i) + ".";
            !IsServerQuestion(name) && !IsServiceQuestion(name)
  {
    hide Number;
    var ns := "ns" + Decimal(i);
    NameserverOf(i);
    SplitAt(ns, "", "");
    assert ns + "." + "" == ns + "." && "" + ns == ns && Split("", "") == [""];
    assert (ns + ".")[|ns|] == '.' && !IsDigit('.') && !IsAlnum('.');
    assert (ns + ".")[2..][|ns| - 2] == '.';
  }

  // ---------------------------------------------------- answers by what is kept

  // The servers of a zone under their numbers, as records of one question.
  function Listed(servers: seq<Instance>, qname: string, qtype: QType): seq<RR> {
    seq(|servers|, i requires 0 <= i < |servers| => NewRR(qname, qtype, servers[i].(host := Advertised(i, qname))))
  }

  lemma ServesList(store: Store, domain: string, qname: string, qtype: QType)
    requires HasSuffix(qname, domain) && AsksForList(Trim(qname, domain)) && (qtype == A || qtype == NS)
    requires !store.servers(Trim(qname, domain)).Failed?
    ensures Serve(store, domain, qname, qtype) ==
            Response(Success, true, Listed(ZoneServers(store, Trim(qname, domain)), qname, qtype), false)
  {
    hide Trim, HasSuffix, IsServiceQuestion, IsServerQuestion, ParseServerQuestion, Advertised, AsksForList;
    ListQuestion(Trim(qname, domain));
  }

  lemma ServesNumber(store: Store, domain: string, qname: string, i: nat, zone: string)
    requires HasSuffix(qname, domain) && AsksForList(zone) && Trim(qname, domain) == NumberedName(i, zone)
    requires !store.servers(zone).Failed? && i <= MAX_INT
    ensures var servers := ZoneServers(store, zone);
            Serve(store, domain, qname, A) ==
            Response(Success, true, if i < |servers| then [ARecord(qname, servers[i].ip)] else [], false)
  {
    hide Trim, HasSuffix, IsServiceQuestion, IsServerQuestion, ParseServerQuestion, AsksForList, Number, IsDigits;
    NumberQuestion(i, zone);
    NameserverOf(i);
  }

  lemma ServesDangling(store: Store, domain: string, qname: string, i: nat)
    requires HasSuffix(qname, domain) && Trim(qname, domain) == "ns" + Decimal(i) + "."
    ensures Serve(store, domain, qname, A) == Response(NameError, true, [], true)
  {
    hide Trim, HasSuffix, IsServiceQuestion, IsServerQuestion, Decimal;
    DanglingQuestion(i);
  }

  // -------------------------------------------------------- advertised names

  // The list of a zone: its servers in sorted order, named by their numbers.
  lemma ZoneAdvertises(store: Store, domain: string, qname: string)
    requires HasSuffix(qname, domain) && AsksForList(Trim(qname, domain))
    requires !store.servers(Trim(qname, domain)).Failed?
    requires qname != "" && qname[|qname| - 1] == '.'
    ensures var r, servers := Serve(store, domain, qname, NS), ZoneServers(store, Trim(qname, domain));
            && r.rcode == Success && |r.answer| == |servers|
            && forall i :: 0 <= i < |servers| ==> r.answer[i] == NsRecord(qname, Advertised(i, qname))
  {
    hide Serve, Trim, HasSuffix, AsksForList;
    ServesList(store, domain, qname, NS);
    forall i | 0 <= i < |ZoneServers(store, Trim(qname, domain))|
      ensures DnsLabels.Fqdn(Advertised(i, qname)) == Advertised(i, qname)
    {
      var s := Advertised(i, qname);
      assert s[|s| - 1] == qname[|qname| - 1];
    }
  }

  // Asking for the i-th name of the list gives the i-th server and nothing else.
  predicate Resolves(store: Store, domain: string, qname: string, i: nat)
    requires i < |ZoneServers(store, Trim(qname, domain))|
  {
    var s, server := Advertised(i, qname), ZoneServers(store, Trim(qname, domain))[i];
    Serve(store, domain, s, A) == Response(Success, true, [ARecord(s, server.ip)], false)
  }

  /**
   * When every one of n advertised names can resolve: there is none; or the
   * domain stands behind a dot somewhere in the name, but not at its very
   * beginning only; or it does not stand behind a dot at all, and the name begins
   * with the domain or advertises a single server.
   */
  predicate Resolvable(qname: string, domain: string, n: nat) {
    || n == 0
    || (exists k :: 0 < k < |qname| && At(qname, "." + domain, k))
    || (!("." + domain <= qname) && (domain <= qname || n == 1))
  }

  lemma KeptExactly(qname: string, domain: string)
    ensures Trim(qname, domain) != "" <==> exists k :: 0 < k < |qname| && At(qname, "." + domain, k)
  {
    var p := LastPlace(qname, "." + domain, |qname|);
    TrimIs(qname, domain, p);
    if k :| 0 < k < |qname| && At(qname, "." + domain, k) { assert p >= k; }
  }

  // A zone or the domain itself: every advertised name resolves, and beyond the
  // list there is no record and no error.
  lemma AdvertisedResolves(store: Store, domain: string, zone: string, i: nat)
    requires AsksForList(zone) && !store.servers(zone).Failed? && i <= MAX_INT
    ensures Resolvable(ZoneName(zone, domain), domain, |ZoneServers(store, zone)|)
    ensures var s, servers := Advertised(i, ZoneName(zone, domain)), ZoneServers(store, zone);
            Serve(store, domain, s, A) ==
            Response(Success, true, if i < |servers| then [ARecord(s, servers[i].ip)] else [], false)
  {
    hide Serve, Trim, AsksForList, Decimal, HasSuffix;
    var front, s := NumberedName(i, zone), Advertised(i, ZoneName(zone, domain));
    assert s == front + "." + domain;
    TrimKeeps(front, domain);
    ServesNumber(store, domain, s, i, zone);
    if zone != "" {
      assert ZoneName(zone, domain)[|zone|..|zone| + 1 + |domain|] == "." + domain;
      assert At(ZoneName(zone, domain), "." + domain, |zone|);
    }
  }

  // The answer to the question for one advertised name, by the form of the name
  // that advertises it.
  lemma AdvertisedAnswer(store: Store, domain: string, qname: string, i: nat)
    requires HasSuffix(qname, domain) && AsksForList(Trim(qname, domain))
    requires !store.servers(Trim(qname, domain)).Failed? && i < |ZoneServers(store, Trim(qname, domain))|
    requires i <= MAX_INT
    ensures var s, servers := Advertised(i, qname), ZoneServers(store, Trim(qname, domain));
            Serve(store, domain, s, A) ==
              if Trim(qname, domain) != "" || (!("." + domain <= qname) && domain <= qname) then
                Response(Success, true, [ARecord(s, servers[i].ip)], false)
              else if "." + domain <= qname then Response(NameError, true, [], true)
              else Response(Success, true, Listed(servers, s, A), false)
  {
    hide Serve, Trim, HasSuffix, Decimal;
    var ns, name := "ns" + Decimal(i), Trim(qname, domain);
    NameserverOf(i);
    TrimBehindLabel(ns, qname, domain);
    SuffixBehindLabel(ns, qname, domain);
    var s := Advertised(i, qname);
    if name != "" || (!("." + domain <= qname) && domain <= qname) {
      ServesNumber(store, domain, s, i, name);
    } else if "." + domain <= qname {
      ServesDangling(store, domain, s, i);
    } else {
      ServesList(store, domain, s, A);
    }
  }

  /**
   * For every name that is answered with a list of nameservers: each name on
   * the list resolves to its own server, and to that one only, if and only if
   * the name that was asked for is resolvable.
   */
  lemma AdvertisedExactly(store: Store, domain: string, qname: string)
    requires HasSuffix(qname, domain) && AsksForList(Trim(qname, domain))
    requires !store.servers(Trim(qname, domain)).Failed?
    requires |ZoneServers(store, Trim(qname, domain))| <= MAX_INT
    ensures var n := |ZoneServers(store, Trim(qname, domain))|;
            (forall i :: 0 <= i < n ==> Resolves(store, domain, qname, i)) <==> Resolvable(qname, domain, n)
  {
    hide Serve, Trim, HasSuffix, AsksForList;
    var servers := ZoneServers(store, Trim(qname, domain));
    KeptExactly(qname, domain);
    forall i | 0 <= i < |servers|
      ensures Resolves(store, domain, qname, i) <==> Resolvable(qname, domain, |servers|)
    {
      AdvertisedAnswer(store, domain, qname, i);
      var all := Listed(servers, Advertised(i, qname), A);
      assert |servers| == 1 ==> all == [ARecord(Advertised(i, qname), servers[i].ip)];
      assert |all| == |servers|;
    }
    if |servers| > 0 && !Resolvable(qname, domain, |servers|) { assert !Resolves(store, domain, qname, 0); }
  }

  // A name that only ends in the letters of the domain is served like the
  // domain, but the names it advertises lose their number, and every server
  // answers to each.
  lemma JoinedNameLosesNumber(store: Store)
    requires store.servers("").Found? && 2 <= |ZoneServers(store, "")| <= MAX_INT
    ensures |Serve(store, "io.", "xio.", NS).answer| == |ZoneServers(store, "")|
    ensures Serve(store, "io.", "ns0.xio.", A).answer == Listed(ZoneServers(store, ""), "ns0.xio.", A)
    ensures !Resolves(store, "io.", "xio.", 0)
  {
    assert AsksForList("");
    hide Serve, Trim, HasSuffix, Number, NewRR, AsksForList;
    JoinedTrims();
    ServesList(store, "io.", "xio.", NS);
    FirstAdvertised();
    hide Advertised;
    AdvertisedAnswer(store, "io.", "xio.", 0);
    assert |Listed(ZoneServers(store, ""), "ns0.xio.", A)| >= 2;
  }

  lemma FirstAdvertised()
    ensures Advertised(0, "xio.") == "ns0.xio." && Advertised(0, ".io.") == "ns0..io."
  {
    assert Decimal(0) == "0";
  }

  lemma JoinedTrims()
    ensures Trim("xio.", "io.") == "" && HasSuffix("xio.", "io.")
    ensures !("io." <= "xio.") && !("." + "io." <= "xio.")
  {
    hide Trim;
    var s, sub := "xio.", "." + "io.";
    assert s[0] != sub[0] && s[0] != "io."[0];
    assert s[1..] == "io.";
    forall k | -1 < k ensures !At(s, sub, k) {
      if k == 0 { assert s[0..4] == s; }
    }
    TrimIs(s, "io.", -1);
  }

  // With a leading dot they are not known at all.
  lemma LeadingDotUnknown(store: Store)
    requires store.servers("").Found? && 1 <= |ZoneServers(store, "")| <= MAX_INT
    ensures |Serve(store, "io.", ".io.", NS).answer| == |ZoneServers(store, "")|
    ensures Serve(store, "io.", "ns0..io.", A) == Response(NameError, true, [], true)
  {
    assert AsksForList("");
    hide Serve, Trim, Number, NewRR, AsksForList;
    assert "." + "io." == ".io." && At(".io.", ".io.", 0);
    TrimIs(".io.", "io.", 0);
    assert ".io."[1..] == "io.";
    ServesList(store, "io.", ".io.", NS);
    FirstAdvertised();
    AdvertisedAnswer(store, "io.", ".io.", 0);
  }

  // The loop that numbers and lists the servers of a zone.
  method ListServers(servers: seq<Instance>, qname: string, qtype: QType) returns (answer: seq<RR>)
    ensures |answer| == |servers|
    ensures forall i :: 0 <= i < |servers| ==>
              answer[i] == NewRR(qname, qtype, servers[i].(host := Advertised(i, qname)))
  {
    answer := [];
    for i := 0 to |servers|
      invariant |answer| == i
      invariant forall j :: 0 <= j < i ==>
                  answer[j] == NewRR(qname, qtype, servers[j].(host := Advertised(j, qname)))
    {
      var server := servers[i].(host := Advertised(i, qname));
      answer := answer + [NewRR(qname, qtype, server)];
    }
  }

  // The answer to a question about servers, given the sorted list of its zone.
  method AnswerServers(store: Store, name: string, qname: string, qtype: QType) returns (res: Response)
    ensures res == ServerResponse(store, name, qname, qtype)
  {
    res := Response(Success, true, [], false);
    if qtype != A && qtype != NS { return; }
    var (ns, zone) := ParseServerQuestion(name);
    if ns != "" && qtype == NS { return; }
    var found := store.servers(zone);
    if found.Failed? { return res.(rcode := ServerFailure); }
    var servers := store.sorted(if found.Found? then found.instances else []);
    if ns == "" {
      var answer := ListServers(servers, qname, qtype);
      return res.(answer := answer);
    }
    if |ns| < 2 || !IsDigits(ns[2..]) || Number(ns[2..]) > MAX_INT { return res.(rcode := NameError); }
    var index := Number(ns[2..]);
    if |servers| <= index { return; }
    return res.(answer := [NewRR(qname, qtype, servers[index])]);
  }

  // The answer to a question about a service.
  method AnswerService(store: Store, name: string, qname: string, qtype: QType) returns (res: Response)
    ensures res == ServiceResponse(store, name, qname, qtype)
  {
    res := Response(Success, true, [], false);
    if qtype != A && qtype != SRV { return; }
    var srv := InfoFromAddr(name);
    if srv.None? { return res.(rcode := NameError); }
    var found := store.instances(srv.value);
    if found.Failed? { return res.(rcode := ServerFailure); }
    if found.NoInstances? { return res.(rcode := NameError); }
    for i := 0 to |found.instances|
      invariant res == Response(Success, true, res.answer, false) && |res.answer| == i
      invariant forall j :: 0 <= j < i ==> res.answer[j] == NewRR(qname, qtype, found.instances[j])
    {
      res := res.(answer := res.answer + [NewRR(qname, qtype, found.instances[i])]);
    }
  }

  // One question, dispatched by the part of its name in front of the domain.
  method ServeQuestion(store: Store, domain: string, qname: string, qtype: QType) returns (res: Response)
    ensures res == Serve(store, domain, qname, qtype)
  {
    res := Response(Success, false, [], false);
    if !HasSuffix(qname, domain) { return res.(rcode := NameError); }
    res := res.(authoritative := true);
    var name := Trim(qname, domain);
    if IsServiceQuestion(name) {
      res := AnswerService(store, name, qname, qtype);
    } else if IsServerQuestion(name) {
      res := AnswerServers(store, name, qname, qtype);
    } else {
      res := res.(rcode := NameError, soa := true);
    }
  }
}
