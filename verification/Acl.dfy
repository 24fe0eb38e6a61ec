/**
  Access control lists: policies compiled over a parent, down to one of the
  static root policies.

  ACL is the meaning of a compiled list; PolicyAcl is the compiled object,
  whose key rules sit in a radix tree.
 */
module Acl {
  import opened Common
  import opened RadixShape
  import opened RadixTree

  type Rule = string

  const DENY: Rule := "deny"
  const READ: Rule := "read"
  const WRITE: Rule := "write"

  datatype Policy = Policy(id: string, keys: seq<(Key, Rule)>, services: seq<(Key, Rule)>)

  datatype ACL =
    | Static(allowManage: bool, defaultAllow: bool)
    | Compiled(parent: ACL, keyRules: map<Key, Rule>, serviceRules: map<Key, Rule>)

  const ALLOW_ALL := Static(false, true)
  const DENY_ALL := Static(false, false)
  const MANAGE_ALL := Static(true, true)

  // The rule of the longest prefix of key[..n] that has one.
  function LongestRule(rules: map<Key, Rule>, key: Key, n: nat): Option<Rule>
    requires n <= |key|
  {
    if key[..n] in rules then Some(rules[key[..n]])
    else if n == 0 then None
    else LongestRule(rules, key, n - 1)
  }

  function RuleFor(rules: map<Key, Rule>, key: Key): Option<Rule> {
    LongestRule(rules, key, |key|)
  }

  // An exact rule, or the catch-all under the empty name.
  function ServiceRule(rules: map<Key, Rule>, name: Key): Option<Rule> {
    if name in rules then Some(rules[name])
    else if [] in rules then Some(rules[[]])
    else None
  }

  predicate KeyRead(acl: ACL, key: Key) {
    match acl
    case Static(_, allow) => allow
    case Compiled(parent, rules, _) =>
      match RuleFor(rules, key)
      case Some(rule) => rule == READ || rule == WRITE
      case None => KeyRead(parent, key)
  }

  predicate KeyWrite(acl: ACL, key: Key) {
    match acl
    case Static(_, allow) => allow
    case Compiled(parent, rules, _) =>
      match RuleFor(rules, key)
      case Some(rule) => rule == WRITE
      case None => KeyWrite(parent, key)
  }

  // No rule at or below the prefix says anything but write.
  predicate OnlyWritesUnder(rules: map<Key, Rule>, prefix: Key) {
    forall k :: k in rules && prefix <= k ==> rules[k] == WRITE
  }

  predicate KeyWritePrefix(acl: ACL, prefix: Key) {
    match acl
    case Static(_, allow) => allow
    case Compiled(parent, rules, _) =>
      match RuleFor(rules, prefix)
      case Some(rule) => rule == WRITE && OnlyWritesUnder(rules, prefix)
      case None => OnlyWritesUnder(rules, prefix) && KeyWritePrefix(parent, prefix)
  }

  predicate ServiceRead(acl: ACL, name: Key) {
    match acl
    case Static(_, allow) => allow
    case Compiled(parent, _, rules) =>
      match ServiceRule(rules, name)
      case Some(rule) => rule == READ || rule == WRITE
      case None => ServiceRead(parent, name)
  }

  predicate ServiceWrite(acl: ACL, name: Key) {
    match acl
    case Static(_, allow) => allow
    case Compiled(parent, _, rules) =>
      match ServiceRule(rules, name)
      case Some(rule) => rule == WRITE
      case None => ServiceWrite(parent, name)
  }

  predicate AclManage(acl: ACL) {
    match acl
    case Static(manage, _) => manage
    case Compiled(parent, _, _) => AclManage(parent)
  }

  // ------------------------------------------------------ through any chain

  // The rule for an extension of the prefix is the prefix's own, or one found beyond it.
  lemma {:induction false} RuleOfExtension(rules: map<Key, Rule>, prefix: Key, key: Key, n: nat)
    requires prefix <= key && n <= |key|
    ensures n <= |prefix| ==> LongestRule(rules, key, n) == LongestRule(rules, prefix, n)
    ensures n > |prefix| ==>
      LongestRule(rules, key, n) == RuleFor(rules, prefix)
      || exists m :: |prefix| < m <= n && key[..m] in rules && LongestRule(rules, key, n) == Some(rules[key[..m]])
    decreases n
  {
    if n <= |prefix| {
      assert key[..n] == prefix[..n];
    } else if key[..n] in rules {
      return;
    }
    if n > 0 && key[..n] !in rules {
      RuleOfExtension(rules, prefix, key, n - 1);
      assert n - 1 == |prefix| ==> key[..n - 1] == prefix;
    }
  }

  // Permission to write a prefix is permission to write every key under it.
  lemma {:induction false} WritePrefixCovers(acl: ACL, prefix: Key, key: Key)
    requires KeyWritePrefix(acl, prefix) && prefix <= key
    ensures KeyWrite(acl, key)
    decreases acl
  {
    match acl
    case Static(_, _) =>
    case Compiled(parent, rules, _) =>
      RuleOfExtension(rules, prefix, key, |key|);
      if RuleFor(rules, key) == RuleFor(rules, prefix) {
        if RuleFor(rules, prefix).None? {
          WritePrefixCovers(parent, prefix, key);
        }
      } else {
        var m :| |prefix| < m <= |key| && key[..m] in rules && RuleFor(rules, key) == Some(rules[key[..m]]);
        assert prefix <= key[..m];
      }
  }

  lemma {:induction false} WriteImpliesRead(acl: ACL, key: Key)
    requires KeyWrite(acl, key)
    ensures KeyRead(acl, key)
    decreases acl
  {
    if acl.Compiled? && RuleFor(acl.keyRules, key).None? {
      WriteImpliesRead(acl.parent, key);
    }
  }

  lemma {:induction false} ServiceWriteImpliesRead(acl: ACL, name: Key)
    requires ServiceWrite(acl, name)
    ensures ServiceRead(acl, name)
    decreases acl
  {
    if acl.Compiled? && ServiceRule(acl.serviceRules, name).None? {
      ServiceWriteImpliesRead(acl.parent, name);
    }
  }

  ghost predicate AllWritable(acl: ACL, prefix: Key) {
    forall key :: prefix <= key ==> KeyWrite(acl, key)
  }

  lemma OneRefused(acl: ACL, prefix: Key, key: Key)
    requires prefix <= key && !KeyWrite(acl, key)
    ensures !AllWritable(acl, prefix)
  {
  }

  // Exactly when a prefix may be written: every key under it may be, and where
  // no rule of this level reaches the prefix the parent allows the prefix too.
  lemma WritePrefixExactly(acl: ACL, prefix: Key)
    requires acl.Compiled?
    ensures KeyWritePrefix(acl, prefix) <==>
      AllWritable(acl, prefix) && (RuleFor(acl.keyRules, prefix).None? ==> KeyWritePrefix(acl.parent, prefix))
  {
    if KeyWritePrefix(acl, prefix) {
      forall key | prefix <= key
        ensures KeyWrite(acl, key)
      {
        WritePrefixCovers(acl, prefix, key);
      }
    } else if !OnlyWritesUnder(acl.keyRules, prefix) {
      var k :| k in acl.keyRules && prefix <= k && acl.keyRules[k] != WRITE;
      assert k[..|k|] == k;
      OneRefused(acl, prefix, k);
    } else if RuleFor(acl.keyRules, prefix).Some? {
      OneRefused(acl, prefix, prefix);
    }
  }

  // The second condition is needed: a prefix may be refused although every key
  // under it can be written, because the parent's denial below the prefix is
  // overruled by the child's own rule.
  lemma WritePrefixMayRefuseMore()
    ensures
      var base := Compiled(ALLOW_ALL, map[[97, 98] := DENY], map[]);
      var acl := Compiled(base, map[[97, 98] := WRITE], map[]);
      !KeyWritePrefix(acl, [97]) && AllWritable(acl, [97])
  {
    var rules: map<Key, Rule> := map[[97, 98] := DENY];
    var base := Compiled(ALLOW_ALL, rules, map[]);
    var acl := Compiled(base, map[[97, 98] := WRITE], map[]);
    assert DENY[0] != WRITE[0];
    assert [97, 98] in rules && [97] <= [97, 98] && rules[[97, 98]] != WRITE;
    NoRule(rules, [97], [97, 98], 1);
    NoRule(acl.keyRules, [97], [97, 98], 1);
    assert !KeyWritePrefix(base, [97]);
    forall key: Key | [97] <= key
      ensures KeyWrite(acl, key)
    {
      if [97, 98] <= key {
        NearestRule(acl.keyRules, key, [97, 98], |key|);
      } else {
        NoRule(acl.keyRules, key, [97, 98], |key|);
        NoRule(rules, key, [97, 98], |key|);
      }
    }
  }

  lemma {:induction false} NearestRule(rules: map<Key, Rule>, key: Key, only: Key, n: nat)
    requires rules.Keys == {only} && only <= key && |only| <= n <= |key|
    ensures LongestRule(rules, key, n) == Some(rules[only])
  {
    if n > |only| {
      NearestRule(rules, key, only, n - 1);
    } else {
      assert key[..n] == only;
    }
  }

  lemma {:induction false} NoRule(rules: map<Key, Rule>, key: Key, only: Key, n: nat)
    requires rules.Keys == {only} && !(only <= key) && n <= |key|
    ensures LongestRule(rules, key, n) == None
  {
    if n > 0 {
      NoRule(rules, key, only, n - 1);
    }
  }

  // ---------------------------------------------------- the compiled object

  function Loaded(rules: seq<(Key, Rule)>): map<Key, Rule> {
    if rules == [] then map[]
    else
      var last := rules[|rules| - 1];
      Loaded(rules[..|rules| - 1])[last.0 := last.1]
  }

  // The meaning of a policy over its parent.
  function Compile(parent: ACL, policy: Policy): ACL {
    Compiled(parent, Loaded(policy.keys), Loaded(policy.services))
  }

  // The tree's longest match is the rule the list asks for.
  lemma {:induction false} LongestMatch(rules: map<Key, Rule>, key: Key, n: nat, found: Option<Rule>, path: Key)
    requires n <= |key|
    requires found.Some? ==> path in rules && rules[path] == found.value && path <= key && |path| <= n
    requires forall k :: k in rules && k <= key && |k| <= n ==> found.Some? && |k| <= |path|
    ensures LongestRule(rules, key, n) == found
  {
    if key[..n] in rules {
      assert key[..n] <= key;
      assert path == key[..n];
    } else if n > 0 {
      assert found.Some? && |path| == n ==> path == key[..n];
      LongestMatch(rules, key, n - 1, found, path);
    }
  }

  method LoadKeys(keys: seq<(Key, Rule)>) returns (tree: Tree<Rule>)
    ensures fresh(tree) && fresh(tree.repr) && tree.Valid()
    ensures Named(tree.contents) && Values(tree.contents) == Loaded(keys)
  {
    hide Tree.Valid;
    tree := new Tree<Rule>();
    for i := 0 to |keys|
      invariant fresh(tree) && fresh(tree.repr) && tree.Valid()
      invariant Named(tree.contents) && Values(tree.contents) == Loaded(keys[..i])
    {
      assert keys[..i + 1][..i] == keys[..i];
      StoredIsUpdate(tree.contents, keys[i].0, keys[i].1);
      var replaced := tree.Insert(keys[i].0, keys[i].1);
    }
    assert keys[..|keys|] == keys;
  }

  method LoadServices(rules: seq<(Key, Rule)>) returns (services: map<Key, Rule>)
    ensures services == Loaded(rules)
  {
    services := map[];
    for i := 0 to |rules|
      invariant services == Loaded(rules[..i])
    {
      assert rules[..i + 1][..i] == rules[..i];
      services := services[rules[i].0 := rules[i].1];
    }
    assert rules[..|rules|] == rules;
  }

  class PolicyAcl {
    const parent: ACL
    const keyRules: Tree<Rule>
    var serviceRules: map<Key, Rule>

    ghost predicate Valid()
      reads this, keyRules, keyRules.repr
    {
      keyRules.Valid()
    }

    ghost function View(): ACL
      reads this, keyRules
    {
      Compiled(parent, Values(keyRules.contents), serviceRules)
    }

    constructor (parent: ACL, policy: Policy)
      ensures Valid() && View() == Compile(parent, policy)
    {
      var tree := LoadKeys(policy.keys);
      var services := LoadServices(policy.services);
      this.parent, keyRules, serviceRules := parent, tree, services;
    }

    // The rule LongestPrefix finds in the tree.
    method MatchingRule(key: Key) returns (rule: Option<Rule>)
      requires Valid()
      ensures rule == RuleFor(View().keyRules, key)
    {
      var found := keyRules.LongestPrefix(key);
      ghost var path :| keyRules.LongestUpTo(key, |key|, found, path);
      rule := if found.Some? then Some(found.value.val) else None;
      LongestMatch(Values(keyRules.contents), key, |key|, rule, path);
    }

    method MayReadKey(key: Key) returns (ok: bool)
      requires Valid()
      ensures ok == KeyRead(View(), key)
    {
      var rule := MatchingRule(key);
      if rule.Some? {
        return rule.value == READ || rule.value == WRITE;
      }
      return KeyRead(parent, key);
    }

    method MayWriteKey(key: Key) returns (ok: bool)
      requires Valid()
      ensures ok == KeyWrite(View(), key)
    {
      var rule := MatchingRule(key);
      if rule.Some? {
        return rule.value == WRITE;
      }
      return KeyWrite(parent, key);
    }

    method MayWritePrefix(prefix: Key) returns (ok: bool)
      requires Valid()
      ensures ok == KeyWritePrefix(View(), prefix)
    {
      var rule := MatchingRule(prefix);
      if rule.Some? && rule.value != WRITE {
        return false;
      }
      var refuses := (_: Key, r: Rule) => r != WRITE;
      var visited, deny := keyRules.WalkPrefix(prefix, refuses);
      ghost var keys :| Lists(keyRules.contents, keyRules.Under(prefix), refuses, keys, visited, deny);
      WalkFindsDenial(prefix, keys, visited, deny);
      if deny {
        return false;
      }
      if rule.Some? {
        return true;
      }
      return KeyWritePrefix(parent, prefix);
    }

    // The walk stops exactly when some rule under the prefix is not a write.
    lemma WalkFindsDenial(prefix: Key, keys: seq<Key>, visited: seq<Leaf<Rule>>, deny: bool)
      requires Valid()
      requires Lists(keyRules.contents, keyRules.Under(prefix), (_, r) => r != WRITE, keys, visited, deny)
      ensures deny <==> !OnlyWritesUnder(View().keyRules, prefix)
    {
      var rules := Values(keyRules.contents);
      if deny {
        var last := keys[|keys| - 1];
        assert last in rules && prefix <= last && rules[last] == visited[|visited| - 1].val != WRITE;
      } else {
        forall k | k in rules && prefix <= k
          ensures rules[k] == WRITE
        {
          assert k in keyRules.Under(prefix);
          var i :| 0 <= i < |keys| && keys[i] == k;
        }
      }
    }
  }
}
