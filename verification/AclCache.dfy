/**
  The ACL cache: three LRU caches in front of the functions that fault rules
  in, parse them and compile them over a parent.

  Source stands for what the cache cannot see: the fault function, the parser
  and the digest of the rules.  For a source whose parents do not run in a
  circle and whose digests do not collide, every call returns exactly what
  would be computed without any cache, whatever has been evicted.
 */
module AclCache {
  import opened Common
  import opened Acl
  import opened AclLines
  import Lru

  type Id = string
  type Rules = string

  datatype Result<+T> = Ok(value: T) | Err(error: string)

  datatype Faulted = Faulted(parent: Id, rules: Rules)

  datatype Source = Source(fault: Id -> Result<Faulted>, parse: Rules -> Result<Policy>, digest: Rules -> string,
                           depth: Id -> nat)
  {
    // Following parents comes to an end.
    ghost predicate Acyclic() {
      forall id :: fault(id).Ok? && RootAcl(fault(id).value.parent).Err? ==> depth(fault(id).value.parent) < depth(id)
    }

    ghost predicate CollisionFree() {
      && (forall a, b :: digest(a) == digest(b) ==> a == b)
      && (forall a :: ':' !in digest(a))
    }
  }

  function RootAcl(id: Id): Result<ACL> {
    if id == "allow" then Ok(ALLOW_ALL)
    else if id == "deny" then Ok(DENY_ALL)
    else if id == "manage" then Ok(MANAGE_ALL)
    else Err("")
  }

  // -------------------------------------------------------- without a cache

  function Parsed(src: Source, rules: Rules): Result<Policy> {
    match src.parse(rules)
    case Err(e) => Err(e)
    case Ok(policy) => Ok(policy.(id := src.digest(rules)))
  }

  ghost function DirectAcl(src: Source, id: Id): Result<ACL>
    requires src.Acyclic()
    decreases src.depth(id), 1
  {
    match src.fault(id)
    case Err(e) => Err(e)
    case Ok(f) =>
      match Parsed(src, f.rules)
      case Err(e) => Err(e)
      case Ok(policy) =>
        match RootAcl(f.parent)
        case Ok(root) => Ok(Compile(root, policy))
        case Err(_) =>
          match DirectAcl(src, f.parent)
          case Err(e) => Err(e)
          case Ok(parent) => Ok(Compile(parent, policy))
  }

  ghost function DirectPolicy(src: Source, id: Id): Result<(Id, Policy)> {
    match src.fault(id)
    case Err(e) => Err(e)
    case Ok(f) =>
      match Parsed(src, f.rules)
      case Err(e) => Err(e)
      case Ok(policy) => Ok((f.parent, policy))
  }

  // The rules compiled over the parent with that ID.
  ghost function CompiledOver(src: Source, parent: Id, rules: Rules): Result<ACL>
    requires src.Acyclic()
  {
    match Parsed(src, rules)
    case Err(e) => Err(e)
    case Ok(policy) =>
      match RootAcl(parent)
      case Ok(root) => Ok(Compile(root, policy))
      case Err(_) =>
        match DirectAcl(src, parent)
        case Err(e) => Err(e)
        case Ok(p) => Ok(Compile(p, policy))
  }

  // ---------------------------------------------------- what a list stands for

  const ROOTS := {"allow", "deny", "manage"}

  // The policies found by following parents from id, down to one of the roots.
  ghost predicate Inherits(src: Source, id: Id, line: seq<Policy>, root: Id)
    decreases |line|
  {
    && line != [] && src.fault(id).Ok?
    && var f := src.fault(id).value;
       && src.parse(f.rules) == Ok(line[0])
       && if f.parent in ROOTS then line == [line[0]] && root == f.parent
          else Inherits(src, f.parent, line[1..], root)
  }

  // The first error that is met on the way.
  ghost predicate Fails(src: Source, id: Id, error: string)
    requires src.Acyclic()
    decreases src.depth(id)
  {
    match src.fault(id)
    case Err(e) => error == e
    case Ok(f) =>
      match src.parse(f.rules)
      case Err(e) => error == e
      case Ok(_) => f.parent !in ROOTS && Fails(src, f.parent, error)
  }

  // Every list that is had without a cache stands for a line of policies and
  // answers as they say; there is none exactly when an error is met.
  lemma {:induction false} ListMeans(src: Source, id: Id)
    requires src.Acyclic()
    ensures match DirectAcl(src, id)
            case Ok(acl) => (exists line, root :: Inherits(src, id, line, root) && Answers(acl, line, root))
            case Err(e) => Fails(src, id, e)
    ensures forall line, root :: Inherits(src, id, line, root) ==>
              DirectAcl(src, id).Ok? && Answers(DirectAcl(src, id).value, line, root)
    decreases src.depth(id)
  {
    if src.fault(id).Err? || src.parse(src.fault(id).value.rules).Err? { return; }
    var f := src.fault(id).value;
    var policy := src.parse(f.rules).value;
    var named := policy.(id := src.digest(f.rules));
    if f.parent in ROOTS {
      var root := RootAcl(f.parent).value;
      assert Answers(root, [], f.parent);
      hide Answers;
      CompiledAnswers(root, policy, [], f.parent);
      assert Compile(root, named) == Compile(root, policy) && [policy] + [] == [policy];
      assert Inherits(src, id, [policy], f.parent);
    } else {
      hide Answers;
      ListMeans(src, f.parent);
      forall line, root | Inherits(src, f.parent, line, root)
        ensures Inherits(src, id, [policy] + line, root) && Answers(DirectAcl(src, id).value, [policy] + line, root)
      {
        var parent := DirectAcl(src, f.parent).value;
        CompiledAnswers(parent, policy, line, root);
        assert Compile(parent, named) == Compile(parent, policy) && ([policy] + line)[1..] == line;
      }
      forall line, root | Inherits(src, id, line, root)
        ensures Inherits(src, f.parent, line[1..], root) && line == [policy] + line[1..]
      {
      }
    }
  }

  // ------------------------------------------------------------ cache keys

  function PolicyId(parent: Id, ruleId: string): string {
    parent + ":" + ruleId
  }

  // The digest has no colon, so parent and digest can be told apart.
  lemma PolicyIdInjective(p: Id, r: string, p': Id, r': string)
    requires PolicyId(p, r) == PolicyId(p', r') && ':' !in r && ':' !in r'
    ensures p == p' && r == r'
  {
    var s, s' := PolicyId(p, r), PolicyId(p', r');
    assert s[|p|] == ':' && s'[|p'|] == ':';
    assert s[|p| + 1..] == r && s'[|p'| + 1..] == r';
    assert forall i :: |p| < i < |s| ==> s[i] in r;
    assert forall i :: |p'| < i < |s| ==> s'[i] in r';
    assert s[..|p|] == p && s'[..|p'|] == p';
  }

  datatype AclEntry = AclEntry(acl: ACL, parent: Id, ruleId: string)

  // What may be found in each of the three caches.
  ghost predicate AclEntryOk(src: Source, id: Id, e: AclEntry)
    requires src.Acyclic()
  {
    && DirectAcl(src, id) == Ok(e.acl)
    && src.fault(id).Ok? && src.fault(id).value.parent == e.parent
    && src.digest(src.fault(id).value.rules) == e.ruleId
  }

  ghost predicate PolicyEntryOk(src: Source, key: string, acl: ACL)
    requires src.Acyclic()
  {
    forall parent, rules :: PolicyId(parent, src.digest(rules)) == key ==> CompiledOver(src, parent, rules) == Ok(acl)
  }

  ghost predicate RuleEntryOk(src: Source, key: string, policy: Policy) {
    forall rules :: src.digest(rules) == key ==> Parsed(src, rules) == Ok(policy)
  }

  lemma PolicyEntryFits(src: Source, parent: Id, rules: Rules, acl: ACL)
    requires src.Acyclic() && src.CollisionFree() && CompiledOver(src, parent, rules) == Ok(acl)
    ensures PolicyEntryOk(src, PolicyId(parent, src.digest(rules)), acl)
  {
    forall p, r | PolicyId(p, src.digest(r)) == PolicyId(parent, src.digest(rules))
      ensures CompiledOver(src, p, r) == Ok(acl)
    {
      PolicyIdInjective(p, src.digest(r), parent, src.digest(rules));
    }
  }

  ghost predicate AclsOk(src: Source, c: seq<Lru.Entry<Id, AclEntry>>)
    requires src.Acyclic()
  {
    forall e :: e in c ==> AclEntryOk(src, e.key, e.value)
  }

  ghost predicate PoliciesOk(src: Source, c: seq<Lru.Entry<string, ACL>>)
    requires src.Acyclic()
  {
    forall e :: e in c ==> PolicyEntryOk(src, e.key, e.value)
  }

  ghost predicate RulesOk(src: Source, c: seq<Lru.Entry<string, Policy>>) {
    forall e :: e in c ==> RuleEntryOk(src, e.key, e.value)
  }

  class Cache {
    const src: Source
    const aclCache: Lru.Cache<Id, AclEntry>
    const policyCache: Lru.Cache<string, ACL>
    const ruleCache: Lru.Cache<string, Policy>

    ghost predicate Valid()
      reads aclCache, policyCache, ruleCache
    {
      && src.Acyclic() && src.CollisionFree()
      && aclCache as object != policyCache && policyCache as object != ruleCache && aclCache as object != ruleCache
      && aclCache.Valid() && policyCache.Valid() && ruleCache.Valid()
      && AclsOk(src, aclCache.evictList)
      && PoliciesOk(src, policyCache.evictList)
      && RulesOk(src, ruleCache.evictList)
    }

    constructor (size: nat, source: Source)
      requires size > 0 && source.Acyclic() && source.CollisionFree()
      ensures Valid() && fresh(aclCache) && fresh(policyCache) && fresh(ruleCache)
    {
      src := source;
      aclCache := new Lru.Cache(size);
      policyCache := new Lru.Cache(size);
      ruleCache := new Lru.Cache(size);
    }

    // Looking up an entry of each kind.
    method FindRule(ruleId: string) returns (r: Option<Policy>)
      requires Valid()
      modifies ruleCache
      ensures Valid() && (r.Some? ==> RuleEntryOk(src, ruleId, r.value))
    {
      Lru.FindMember(ruleCache.evictList, ruleId);
      Lru.AfterGetMembers(ruleCache.evictList, ruleId);
      r := ruleCache.Get(ruleId);
    }

    method FindPolicy(key: string) returns (r: Option<ACL>)
      requires Valid()
      modifies policyCache
      ensures Valid() && (r.Some? ==> PolicyEntryOk(src, key, r.value))
    {
      Lru.FindMember(policyCache.evictList, key);
      Lru.AfterGetMembers(policyCache.evictList, key);
      r := policyCache.Get(key);
    }

    method FindAcl(id: Id) returns (r: Option<AclEntry>)
      requires Valid()
      modifies aclCache
      ensures Valid() && (r.Some? ==> AclEntryOk(src, id, r.value))
    {
      Lru.FindMember(aclCache.evictList, id);
      Lru.AfterGetMembers(aclCache.evictList, id);
      r := aclCache.Get(id);
    }

    method GetPolicyFor(ruleId: string, rules: Rules) returns (r: Result<Policy>)
      requires Valid() && ruleId == src.digest(rules)
      modifies ruleCache
      ensures Valid() && r == Parsed(src, rules)
    {
      var cached := FindRule(ruleId);
      if cached.Some? {
        return Ok(cached.value);
      }
      var parsed := src.parse(rules);
      if parsed.Err? {
        return Err(parsed.error);
      }
      var policy := parsed.value.(id := ruleId);
      Lru.AfterAddMembers(ruleCache.evictList, ruleId, policy, ruleCache.size);
      ruleCache.Add(ruleId, policy);
      return Ok(policy);
    }

    method GetPolicy(rules: Rules) returns (r: Result<Policy>)
      requires Valid()
      modifies ruleCache
      ensures Valid() && r == Parsed(src, rules)
    {
      r := GetPolicyFor(src.digest(rules), rules);
    }

    method GetAclPolicy(id: Id) returns (r: Result<(Id, Policy)>)
      requires Valid()
      modifies aclCache, ruleCache
      ensures Valid() && r == DirectPolicy(src, id)
    {
      var cached := FindAcl(id);
      if cached.Some? {
        var rule := FindRule(cached.value.ruleId);
        if rule.Some? {
          return Ok((cached.value.parent, rule.value));
        }
      }
      var f := src.fault(id);
      if f.Err? {
        return Err(f.error);
      }
      var policy := GetPolicy(f.value.rules);
      return if policy.Ok? then Ok((f.value.parent, policy.value)) else Err(policy.error);
    }

    method GetAcl(id: Id) returns (r: Result<ACL>)
      requires Valid()
      modifies aclCache, policyCache, ruleCache
      ensures Valid() && r == DirectAcl(src, id)
      ensures match r
              case Ok(acl) => (exists line, root :: Inherits(src, id, line, root) && Answers(acl, line, root))
              case Err(e) => Fails(src, id, e)
      decreases src.depth(id), 1
    {
      ListMeans(src, id);
      var cached := FindAcl(id);
      if cached.Some? {
        return Ok(cached.value.acl);
      }
      var f := src.fault(id);
      if f.Err? {
        return Err(f.error);
      }
      var ruleId := src.digest(f.value.rules);
      var compiled := Compiling(id, f.value.parent, f.value.rules, ruleId);
      if compiled.Err? {
        return compiled;
      }
      var entry := AclEntry(compiled.value, f.value.parent, ruleId);
      Lru.AfterAddMembers(aclCache.evictList, id, entry, aclCache.size);
      aclCache.Add(id, entry);
      return compiled;
    }

    // The compiled ACL from the policy cache, or compiled over the parent and cached.
    method Compiling(ghost id: Id, parentId: Id, rules: Rules, ruleId: string) returns (r: Result<ACL>)
      requires Valid() && ruleId == src.digest(rules) && src.fault(id) == Ok(Faulted(parentId, rules))
      modifies aclCache, policyCache, ruleCache
      ensures Valid() && r == CompiledOver(src, parentId, rules)
      decreases src.depth(id), 0
    {
      var key := PolicyId(parentId, ruleId);
      var cached := FindPolicy(key);
      if cached.Some? {
        return Ok(cached.value);
      }
      var policy := GetPolicyFor(ruleId, rules);
      if policy.Err? {
        return Err(policy.error);
      }
      var parent := RootAcl(parentId);
      if parent.Err? {
        parent := GetAcl(parentId);
        if parent.Err? {
          return parent;
        }
      }
      r := Ok(Compile(parent.value, policy.value));
      PolicyEntryFits(src, parentId, rules, r.value);
      Lru.AfterAddMembers(policyCache.evictList, key, r.value, policyCache.size);
      policyCache.Add(key, r.value);
    }

    method ClearAcl(id: Id)
      requires Valid()
      modifies aclCache
      ensures Valid()
      ensures aclCache.evictList == Lru.Without(old(aclCache.evictList), id)
    {
      ghost var before := aclCache.evictList;
      aclCache.Remove(id);
      forall e | e in aclCache.evictList
        ensures AclEntryOk(src, e.key, e.value)
      {
        Lru.WithoutMember(before, id, e);
      }
    }

    method Purge()
      requires Valid()
      modifies aclCache
      ensures Valid() && aclCache.evictList == []
    {
      aclCache.Purge();
    }
  }
}
