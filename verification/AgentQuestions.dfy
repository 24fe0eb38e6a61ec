/**
 * What the agent answers to each form of question (agent/dns.go, agent/types.go),
 * with the forms and the answers written out: a name is given by its labels, an
 * answer by its records.
 */
module AgentQuestions {
  import opened Common
  import opened AgentDns

  // -------------------------------------------------- the forms, written out

  ghost predicate LabelText(s: string) {
    s != "" && forall c <- s :: '0' <= c <= '9' || 'A' <= c <= 'Z' || 'a' <= c <= 'z' || c == '-'
  }

  ghost predicate ZoneText(s: string) { |s| == 2 && LabelText(s) && '-' !in s }

  ghost predicate DigitText(s: string) { s != "" && forall c <- s :: '0' <= c <= '9' }

  ghost predicate InfoText(i: Info) {
    LabelText(i.service) && LabelText(i.job) && LabelText(i.env) && LabelText(i.product) && ZoneText(i.zone)
  }

  function ServiceName(i: Info): string {
    i.service + "." + i.job + "." + i.env + "." + i.product + "." + i.zone
  }

  // The name of a server in front of the domain: of a zone or of none, by number
  // or not.
  function ServerName(number: string, zone: string): string {
    if number == "" then zone
    else if zone == "" then "ns" + number
    else "ns" + number + "." + zone
  }

  ghost predicate ServerText(number: string, zone: string) {
    (number == "" || DigitText(number)) && (zone == "" || ZoneText(zone))
  }

  // ----------------------------------------------------- names and their fields

  // strings.Join with a dot.
  function Join(fields: seq<string>): string
    requires fields != []
  {
    if |fields| == 1 then fields[0] else fields[0] + "." + Join(fields[1..])
  }

  lemma {:induction false} SplitNAt(a: string, rest: string, open: string, n: nat)
    requires '.' !in a && n > 0
    ensures n > 1 ==> SplitN(a + "." + rest, open, n) == [open + a] + SplitN(rest, "", n - 1)
    ensures SplitN(a, open, n) == [open + a]
    decreases a
  {
    var s := a + "." + rest;
    if a == "" {
      assert s[1..] == rest && open + a == open;
    } else {
      assert s[1..] == a[1..] + "." + rest;
      SplitNAt(a[1..], rest, open + [a[0]], n);
      assert open + [a[0]] + a[1..] == open + a;
    }
  }

  lemma {:induction false} JoinOfSplit(s: string, open: string)
    ensures Join(Split(s, open)) == open + s
    decreases s
  {
    if s != "" {
      if s[0] == '.' {
        JoinOfSplit(s[1..], "");
        assert open + "." + s[1..] == open + s;
      } else {
        JoinOfSplit(s[1..], open + [s[0]]);
        assert open + [s[0]] + s[1..] == open + s;
      }
    }
  }

  lemma {:induction false} JoinOfSplitN(s: string, open: string, n: nat)
    requires n > 0
    ensures Join(SplitN(s, open, n)) == open + s
    decreases s
  {
    if s != "" && n > 1 {
      if s[0] == '.' {
        JoinOfSplitN(s[1..], "", n - 1);
        assert open + "." + s[1..] == open + s;
      } else {
        JoinOfSplitN(s[1..], open + [s[0]], n);
        assert open + [s[0]] + s[1..] == open + s;
      }
    }
  }

  lemma NoDots(s: string)
    ensures IsLabel(s) <==> LabelText(s)
    ensures IsZone(s) <==> ZoneText(s)
    ensures IsDigits(s) <==> DigitText(s)
    ensures LabelText(s) || DigitText(s) || s == "" ==> '.' !in s
  {
    if ZoneText(s) { assert s[0] in s && s[1] in s; }
  }

  lemma JoinFive(f: seq<string>)
    requires |f| == 5
    ensures Join(f) == ServiceName(Info(f[0], f[1], f[2], f[3], f[4]))
  {
    assert Join(f[4..]) == f[4];
    assert Join(f[3..]) == f[3] + "." + f[4];
    assert Join(f[2..]) == f[2] + "." + (f[3] + "." + f[4]);
    assert Join(f[1..]) == f[1] + "." + (f[2] + "." + (f[3] + "." + f[4]));
  }

  lemma {:induction false} SplitOfJoin(fields: seq<string>)
    requires fields != [] && forall f :: f in fields ==> '.' !in f
    ensures Split(Join(fields), "") == fields && SplitN(Join(fields), "", |fields|) == fields
  {
    var first := fields[0];
    assert "" + first == first;
    if |fields| == 1 {
      SplitAt(first, "", "");
      SplitNAt(first, "", "", 1);
      assert fields == [first];
    } else {
      SplitOfJoin(fields[1..]);
      SplitAt(first, Join(fields[1..]), "");
      SplitNAt(first, Join(fields[1..]), "", |fields|);
      assert fields == [first] + fields[1..];
    }
  }

  lemma FiveFields(i: Info)
    requires InfoText(i)
    ensures var fields := [i.service, i.job, i.env, i.product, i.zone];
            Split(ServiceName(i), "") == fields && SplitN(ServiceName(i), "", 5) == fields
  {
    hide IsLabel, IsZone, IsDigits, LabelText, DigitText, Split, SplitN, Join;
    NoDots(i.service); NoDots(i.job); NoDots(i.env); NoDots(i.product); NoDots(i.zone);
    var fields := [i.service, i.job, i.env, i.product, i.zone];
    JoinFive(fields);
    SplitOfJoin(fields);
  }

  // What is told from an address is what it is the address of, and nothing else
  // is taken for one.
  lemma InfoExactly(addr: string, i: Info)
    ensures InfoFromAddr(addr) == Some(i) <==> InfoText(i) && addr == ServiceName(i)
  {
    if InfoText(i) && addr == ServiceName(i) {
      FiveFields(i);
      NoDots(i.service); NoDots(i.job); NoDots(i.env); NoDots(i.product); NoDots(i.zone);
    } else if InfoFromAddr(addr) == Some(i) {
      JoinOfSplitN(addr, "", 5);
      JoinFive(SplitN(addr, "", 5));
      NoDots(i.service); NoDots(i.job); NoDots(i.env); NoDots(i.product); NoDots(i.zone);
    }
  }

  // A question is one for a service exactly if an address can be told from it.
  lemma ServiceQuestionExactly(name: string)
    ensures IsServiceQuestion(name) <==> exists i :: InfoText(i) && name == ServiceName(i)
  {
    if IsServiceQuestion(name) {
      var f := Split(name, "");
      JoinOfSplit(name, "");
      JoinFive(f);
      NoDots(f[0]); NoDots(f[1]); NoDots(f[2]); NoDots(f[3]); NoDots(f[4]);
      assert InfoText(Info(f[0], f[1], f[2], f[3], f[4]));
    } else if i :| InfoText(i) && name == ServiceName(i) {
      FiveFields(i);
      NoDots(i.service); NoDots(i.job); NoDots(i.env); NoDots(i.product); NoDots(i.zone);
    }
  }

  // The digits and the zone of a name that asks for servers.
  lemma ServerForm(name: string) returns (d: string, z: string)
    requires IsServerQuestion(name)
    ensures ServerText(d, z) && name == ServerName(d, z)
  {
    NoDots(name);
    if name == "" {
      d, z := "", "";
    } else if IsZone(name) {
      d, z := "", name;
    } else if IsNameserver(name) {
      d, z := name[2..], "";
      NoDots(d);
    } else {
      d, z := NumberAndZone(name);
    }
  }

  lemma NumberAndZone(name: string) returns (d: string, z: string)
    requires var fields := Split(name, ""); |fields| == 2 && IsNameserver(fields[0]) && IsZone(fields[1])
    ensures DigitText(d) && ZoneText(z) && name == "ns" + d + "." + z
  {
    var fields := Split(name, "");
    JoinOfSplit(name, "");
    assert "" + name == name;
    hide Split, IsZone, IsLabel, LabelText;
    d, z := fields[0][2..], fields[1];
    NoDots(d); NoDots(z);
    assert Join(fields[1..]) == z && fields[0] == "ns" + d;
  }

  lemma ServerQuestionExactly(name: string)
    ensures IsServerQuestion(name) <==> exists d, z :: ServerText(d, z) && name == ServerName(d, z)
  {
    hide IsServerQuestion, ServerText, ServerName;
    if IsServerQuestion(name) {
      var d, z := ServerForm(name);
    } else if d, z :| ServerText(d, z) && name == ServerName(d, z) {
      ServerParsed(d, z);
    }
  }

  // How such a name is taken apart again.
  lemma ServerParsed(d: string, z: string)
    requires ServerText(d, z)
    ensures var name := ServerName(d, z);
            && IsServerQuestion(name) && !IsServiceQuestion(name)
            && ParseServerQuestion(name) == (if d == "" then "" else "ns" + d, z)
  {
    NoDots(d); NoDots(z);
    if d == "" {
      ListQuestion(z);
    } else {
      NumberedQuestion(d, z);
    }
  }

  // --------------------------------------------------------------- the answers

  ghost predicate EndsIn(s: string, suffix: string) {
    exists k :: 0 <= k <= |s| && s == s[..k] + suffix
  }

  lemma SuffixExactly(s: string, suffix: string)
    ensures HasSuffix(s, suffix) <==> EndsIn(s, suffix)
  {
    if HasSuffix(s, suffix) {
      assert s == s[..|s| - |suffix|] + suffix;
    }
  }

  // The part of a name in front of the last dot that has the domain behind it,
  // unless the name begins there.
  ghost predicate InFront(front: string, qname: string, domain: string) {
    && EndsIn(qname, domain)
    && (forall k :: |front| < k ==> !At(qname, "." + domain, k))
    && (front == "" || (front <= qname && At(qname, "." + domain, |front|)))
  }

  lemma FrontIsKept(front: string, qname: string, domain: string)
    requires InFront(front, qname, domain)
    ensures HasSuffix(qname, domain) && Trim(qname, domain) == front
  {
    SuffixExactly(qname, domain);
    if front == "" {
      TrimIs(qname, domain, if At(qname, "." + domain, 0) then 0 else -1);
    } else {
      TrimIs(qname, domain, |front|);
    }
  }

  lemma FrontOfName(front: string, domain: string)
    ensures InFront(front, ZoneName(front, domain), domain)
  {
    var s := ZoneName(front, domain);
    assert EndsIn(s, domain) by { assert s == s[..|s| - |domain|] + domain; }
    hide EndsIn, ZoneName;
    if front != "" {
      assert s == front + ("." + domain);
      StandsBehind(front, "." + domain);
    }
  }

  lemma StandsBehind(front: string, sub: string)
    ensures front <= front + sub && At(front + sub, sub, |front|)
  {
  }

  // A name outside the domain.
  lemma OutsideAnswer(store: Store, domain: string, qname: string, qtype: QType)
    requires !EndsIn(qname, domain)
    ensures Serve(store, domain, qname, qtype) == Response(NameError, false, [], false)
  {
    SuffixExactly(qname, domain);
  }

  // A name of neither form.
  lemma UnknownAnswer(store: Store, domain: string, front: string, qname: string, qtype: QType)
    requires InFront(front, qname, domain)
    requires !exists i :: InfoText(i) && front == ServiceName(i)
    requires !exists d, z :: ServerText(d, z) && front == ServerName(d, z)
    ensures Serve(store, domain, qname, qtype) == Response(NameError, true, [], true)
  {
    FrontIsKept(front, qname, domain);
    ServiceQuestionExactly(front);
    ServerQuestionExactly(front);
  }

  function Absolute(host: string): string {
    if host != "" && host[|host| - 1] == '.' then host else host + "."
  }

  /** A service of any zone: all its instances in the order of the store. */
  lemma ServiceAnswer(store: Store, domain: string, i: Info, qname: string, qtype: QType)
    requires InfoText(i) && InFront(ServiceName(i), qname, domain)
    ensures var r := Serve(store, domain, qname, qtype);
            && r.authoritative && !r.soa
            && match (qtype, store.instances(i))
               case (A, Found(all)) =>
                 && r.rcode == Success && |r.answer| == |all|
                 && forall k :: 0 <= k < |all| ==> r.answer[k] == ARecord(qname, all[k].ip)
               case (SRV, Found(all)) =>
                 && r.rcode == Success && |r.answer| == |all|
                 && forall k :: 0 <= k < |all| ==>
                      r.answer[k] == SrvRecord(qname, all[k].port, Absolute(all[k].host))
               case (_, found) =>
                 && r.answer == []
                 && r.rcode == if qtype != A && qtype != SRV then Success
                               else if found.Failed? then ServerFailure else NameError
  {
    FrontIsKept(ServiceName(i), qname, domain);
    ServiceQuestionExactly(ServiceName(i));
    InfoExactly(ServiceName(i), i);
  }

  /**
   * A server, or all servers, of a zone or of the domain: the list, each under its
   * number, or the server of that number alone.
   */
  lemma ServerAnswer(store: Store, domain: string, d: string, z: string, qname: string, qtype: QType)
    requires ServerText(d, z) && InFront(ServerName(d, z), qname, domain)
    ensures var r := Serve(store, domain, qname, qtype);
            var found := store.servers(z);
            var servers := store.sorted(if found.Found? then found.instances else []);
            && r.authoritative && !r.soa
            && if (qtype != A && qtype != NS) || (qtype == NS && d != "") then r.rcode == Success && r.answer == []
               else if found.Failed? then r.rcode == ServerFailure && r.answer == []
               else if d == "" then
                 && r.rcode == Success && |r.answer| == |servers|
                 && forall k :: 0 <= k < |servers| ==>
                      r.answer[k] == if qtype == A then ARecord(qname, servers[k].ip)
                                     else NsRecord(qname, Absolute("ns" + Decimal(k) + "." + qname))
               else if Number(d) > 0x7fff_ffff_ffff_ffff then r.rcode == NameError && r.answer == []
               else
                 && r.rcode == Success
                 && r.answer == if Number(d) < |servers| then [ARecord(qname, servers[Number(d)].ip)] else []
  {
    hide Trim, HasSuffix, InFront, IsServiceQuestion, IsServerQuestion, ParseServerQuestion, Decimal, LabelText,
         ZoneText;
    NoDots(d);
    FrontIsKept(ServerName(d, z), qname, domain);
    ServerParsed(d, z);
    if d != "" {
      assert ("ns" + d)[2..] == d;
    }
  }
}
