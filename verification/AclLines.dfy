/**
  What a list answers, from the policies it was compiled from, nearest first,
  and the name of the root they stand on.

  A rule stands unless a later rule of its policy has the same name.  Of the
  rules that stand, the one with the longest prefix decides about a key, and the
  exact one before the catch-all about a service; the nearest policy with a
  deciding rule is the one that counts.
 */
module AclLines {
  import opened Common
  import opened RadixShape
  import opened Acl

  ghost predicate Stands(rules: seq<(Key, Rule)>, i: int) {
    0 <= i < |rules| && forall j :: i < j < |rules| ==> rules[j].0 != rules[i].0
  }

  ghost predicate DecidesKey(rules: seq<(Key, Rule)>, key: Key, i: int) {
    && Stands(rules, i) && rules[i].0 <= key
    && forall j :: 0 <= j < |rules| && rules[j].0 <= key ==> |rules[j].0| <= |rules[i].0|
  }

  ghost predicate SilentOnKey(rules: seq<(Key, Rule)>, key: Key) {
    forall j :: 0 <= j < |rules| ==> !(rules[j].0 <= key)
  }

  ghost predicate DecidesService(rules: seq<(Key, Rule)>, name: Key, i: int) {
    && Stands(rules, i)
    && (rules[i].0 == name || (rules[i].0 == [] && forall j :: 0 <= j < |rules| ==> rules[j].0 != name))
  }

  ghost predicate SilentOnService(rules: seq<(Key, Rule)>, name: Key) {
    forall j :: 0 <= j < |rules| ==> rules[j].0 != name && rules[j].0 != []
  }

  // All rules that stand at or below the prefix say write.
  ghost predicate WritesBelow(rules: seq<(Key, Rule)>, prefix: Key) {
    forall i :: Stands(rules, i) && prefix <= rules[i].0 ==> rules[i].1 == "write"
  }

  // Policies over one of the three roots: the whole meaning of a list.
  ghost predicate Answers(acl: ACL, line: seq<Policy>, root: string) {
    && (AclManage(acl) <==> root == "manage")
    && (forall key :: KeyAnswers(acl, line, root, key))
    && (forall name :: ServiceAnswers(acl, line, root, name))
    && (forall prefix :: KeyWritePrefix(acl, prefix) <==> PrefixWritable(line, root, prefix))
  }

  ghost predicate KeyAnswers(acl: ACL, line: seq<Policy>, root: string, key: Key) {
    if line == [] then
      (KeyRead(acl, key) <==> root != "deny") && (KeyWrite(acl, key) <==> root != "deny")
    else if SilentOnKey(line[0].keys, key) then
      KeyAnswers(acl, line[1..], root, key)
    else
      exists i :: DecidesKey(line[0].keys, key, i)
                  && (KeyRead(acl, key) <==> line[0].keys[i].1 == "read" || line[0].keys[i].1 == "write")
                  && (KeyWrite(acl, key) <==> line[0].keys[i].1 == "write")
  }

  ghost predicate ServiceAnswers(acl: ACL, line: seq<Policy>, root: string, name: Key) {
    if line == [] then
      (ServiceRead(acl, name) <==> root != "deny") && (ServiceWrite(acl, name) <==> root != "deny")
    else if SilentOnService(line[0].services, name) then
      ServiceAnswers(acl, line[1..], root, name)
    else
      exists i :: DecidesService(line[0].services, name, i)
                  && (ServiceRead(acl, name) <==>
                      line[0].services[i].1 == "read" || line[0].services[i].1 == "write")
                  && (ServiceWrite(acl, name) <==> line[0].services[i].1 == "write")
  }

  ghost predicate PrefixWritable(line: seq<Policy>, root: string, prefix: Key) {
    if line == [] then root != "deny"
    else
      && WritesBelow(line[0].keys, prefix)
      && if SilentOnKey(line[0].keys, prefix) then PrefixWritable(line[1..], root, prefix)
         else exists i :: DecidesKey(line[0].keys, prefix, i) && line[0].keys[i].1 == "write"
  }

  // -------------------------------------------------- the rules of one policy

  lemma {:induction false} LoadedStanding(rules: seq<(Key, Rule)>, k: Key)
    ensures k in Loaded(rules) <==> exists i :: Stands(rules, i) && rules[i].0 == k
    ensures forall i :: Stands(rules, i) && rules[i].0 == k ==> Loaded(rules)[k] == rules[i].1
  {
    if rules != [] {
      var n := |rules| - 1;
      var front := rules[..n];
      LoadedStanding(front, k);
      if rules[n].0 == k {
        assert Stands(rules, n);
      } else {
        forall i
          ensures Stands(front, i) && front[i].0 == k <==> Stands(rules, i) && rules[i].0 == k
        {
          if Stands(rules, i) && rules[i].0 == k {
            assert i < n;
            assert forall j :: i < j < n ==> front[j] == rules[j];
          }
        }
      }
    }
  }

  // A name that any rule has, some standing rule has.
  lemma {:induction false} LastStands(rules: seq<(Key, Rule)>, j: nat) returns (i: nat)
    requires j < |rules|
    ensures Stands(rules, i) && rules[i].0 == rules[j].0
    decreases |rules| - j
  {
    if Stands(rules, j) {
      i := j;
    } else {
      var next :| j < next < |rules| && rules[next].0 == rules[j].0;
      i := LastStands(rules, next);
    }
  }

  // The rule under the whole of key[..n], if there is one.
  lemma NamedRule(rules: seq<(Key, Rule)>, key: Key, n: nat, j: nat)
    requires n <= |key| && j < |rules| && rules[j].0 == key[..n]
    requires forall i :: 0 <= i < |rules| && rules[i].0 <= key ==> |rules[i].0| <= n
    ensures key[..n] in Loaded(rules) && !SilentOnKey(rules, key)
    ensures exists i :: DecidesKey(rules, key, i) && Loaded(rules)[key[..n]] == rules[i].1
  {
    LoadedStanding(rules, key[..n]);
    hide Loaded;
    var i := LastStands(rules, j);
    assert DecidesKey(rules, key, i);
  }

  lemma ShorterRules(rules: seq<(Key, Rule)>, key: Key, n: nat)
    requires n <= |key| && forall i :: 0 <= i < |rules| ==> rules[i].0 != key[..n]
    requires forall i :: 0 <= i < |rules| && rules[i].0 <= key ==> |rules[i].0| <= n
    ensures key[..n] !in Loaded(rules)
    ensures forall i :: 0 <= i < |rules| && rules[i].0 <= key ==> |rules[i].0| < n
  {
    LoadedStanding(rules, key[..n]);
    hide Loaded;
    forall i | 0 <= i < |rules| && rules[i].0 <= key
      ensures |rules[i].0| < n
    {
      assert rules[i].0 == key[..|rules[i].0|];
    }
  }

  lemma {:induction false} KeyRule(rules: seq<(Key, Rule)>, key: Key, n: nat)
    requires n <= |key|
    requires forall j :: 0 <= j < |rules| && rules[j].0 <= key ==> |rules[j].0| <= n
    ensures SilentOnKey(rules, key) ==> LongestRule(Loaded(rules), key, n) == None
    ensures !SilentOnKey(rules, key) ==>
              exists i :: DecidesKey(rules, key, i) && LongestRule(Loaded(rules), key, n) == Some(rules[i].1)
  {
    hide Loaded, DecidesKey;
    if j :| 0 <= j < |rules| && rules[j].0 == key[..n] {
      NamedRule(rules, key, n, j);
    } else {
      ShorterRules(rules, key, n);
      if n > 0 { KeyRule(rules, key, n - 1); }
    }
  }

  lemma ServiceRuleIs(rules: seq<(Key, Rule)>, name: Key)
    ensures SilentOnService(rules, name) ==> ServiceRule(Loaded(rules), name) == None
    ensures !SilentOnService(rules, name) ==>
              exists i :: DecidesService(rules, name, i) && ServiceRule(Loaded(rules), name) == Some(rules[i].1)
  {
    LoadedStanding(rules, name);
    LoadedStanding(rules, []);
    if j :| 0 <= j < |rules| && rules[j].0 == name {
      var i := LastStands(rules, j);
      assert DecidesService(rules, name, i);
    } else if j :| 0 <= j < |rules| && rules[j].0 == [] {
      var i := LastStands(rules, j);
      assert DecidesService(rules, name, i);
    }
  }

  lemma WritesBelowIs(rules: seq<(Key, Rule)>, prefix: Key)
    ensures OnlyWritesUnder(Loaded(rules), prefix) <==> WritesBelow(rules, prefix)
  {
    forall i | Stands(rules, i)
      ensures rules[i].0 in Loaded(rules) && Loaded(rules)[rules[i].0] == rules[i].1
    {
      LoadedStanding(rules, rules[i].0);
    }
    forall k | k in Loaded(rules)
      ensures exists i :: Stands(rules, i) && rules[i].0 == k
    {
      LoadedStanding(rules, k);
    }
  }

  // ------------------------------------------------------ a list over its line

  // Only the answers of the list are read.
  lemma {:induction false} SameKeyAnswers(acl: ACL, other: ACL, line: seq<Policy>, root: string, key: Key)
    requires KeyAnswers(acl, line, root, key)
    requires (KeyRead(acl, key) <==> KeyRead(other, key)) && (KeyWrite(acl, key) <==> KeyWrite(other, key))
    ensures KeyAnswers(other, line, root, key)
  {
    if line != [] && SilentOnKey(line[0].keys, key) {
      SameKeyAnswers(acl, other, line[1..], root, key);
    }
  }

  lemma {:induction false} SameServiceAnswers(acl: ACL, other: ACL, line: seq<Policy>, root: string, name: Key)
    requires ServiceAnswers(acl, line, root, name)
    requires (ServiceRead(acl, name) <==> ServiceRead(other, name))
    requires (ServiceWrite(acl, name) <==> ServiceWrite(other, name))
    ensures ServiceAnswers(other, line, root, name)
  {
    if line != [] && SilentOnService(line[0].services, name) {
      SameServiceAnswers(acl, other, line[1..], root, name);
    }
  }

  // Compiling one more policy puts it in front of the line.
  lemma CompiledAnswers(parent: ACL, policy: Policy, line: seq<Policy>, root: string)
    requires Answers(parent, line, root)
    ensures Answers(Compile(parent, policy), [policy] + line, root)
  {
    var acl, all := Compile(parent, policy), [policy] + line;
    assert all[1..] == line;
    forall key
      ensures KeyAnswers(acl, all, root, key)
      ensures KeyWritePrefix(acl, key) <==> PrefixWritable(all, root, key)
    {
      KeyRule(policy.keys, key, |key|);
      WritesBelowIs(policy.keys, key);
      assert KeyAnswers(parent, line, root, key);
      if SilentOnKey(policy.keys, key) {
        SameKeyAnswers(parent, acl, line, root, key);
      } else {
        DecidedAlike(policy.keys, key);
      }
    }
    forall name
      ensures ServiceAnswers(acl, all, root, name)
    {
      ServiceRuleIs(policy.services, name);
      assert ServiceAnswers(parent, line, root, name);
      if SilentOnService(policy.services, name) {
        SameServiceAnswers(parent, acl, line, root, name);
      }
    }
  }

  // What no rule of the line reaches is refused over "deny" and granted over the
  // two other roots.
  lemma {:induction false} UnreachedKey(acl: ACL, line: seq<Policy>, root: string, key: Key)
    requires KeyAnswers(acl, line, root, key) && forall p :: p in line ==> SilentOnKey(p.keys, key)
    ensures (KeyRead(acl, key) <==> root != "deny") && (KeyWrite(acl, key) <==> root != "deny")
  {
    if line != [] {
      UnreachedKey(acl, line[1..], root, key);
    }
  }

  lemma {:induction false} UnreachedService(acl: ACL, line: seq<Policy>, root: string, name: Key)
    requires ServiceAnswers(acl, line, root, name) && forall p :: p in line ==> SilentOnService(p.services, name)
    ensures (ServiceRead(acl, name) <==> root != "deny") && (ServiceWrite(acl, name) <==> root != "deny")
  {
    if line != [] {
      UnreachedService(acl, line[1..], root, name);
    }
  }

  // There is one deciding rule at most.
  lemma DecidedAlike(rules: seq<(Key, Rule)>, key: Key)
    ensures forall i, j :: DecidesKey(rules, key, i) && DecidesKey(rules, key, j) ==> i == j
  {
    forall i, j | DecidesKey(rules, key, i) && DecidesKey(rules, key, j)
      ensures i == j
    {
      assert rules[i].0 == key[..|rules[i].0|] && rules[j].0 == key[..|rules[j].0|];
    }
  }
}
