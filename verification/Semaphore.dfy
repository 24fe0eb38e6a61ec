/**
  The distributed semaphore that Consul clients build from the KV store's
  list, compare-and-set and delete operations.

  Every KV call is one atomic step of a state machine.  Between two calls a
  client only computes on what it has read, and that local computation is a
  function (AcquireDecision, ReleaseDecision, DestroyDecision).  Reads are not
  assumed to be fresh: a read may return any store contents there has ever
  been, so every theorem below holds for stale reads of any age.  Sessions may
  be invalidated at any step, replies to writes may be lost, and any number of
  clients, with differing limits, share the prefix.
 */
module Semaphore {
  import opened Common

  const FLAG_VALUE: nat := 0xe0f69a2baa414de0

  type ClientId = nat

  // A session belongs to the Semaphore object that uses it.  Serial 0 is the
  // session given in the options; the others are created by Acquire.
  datatype Session = Session(owner: ClientId, serial: nat)

  datatype Lock = Lock(limit: int, holders: set<Session>)

  // Keys under the prefix: the ".lock" entry and one entry per contender.
  datatype Key = LockKey | ContenderKey(session: Session)

  datatype Value = Nil | Encoded(lock: Lock) | Opaque

  datatype Pair = Pair(value: Value, session: Option<Session>, flags: nat, modifyIndex: nat)

  datatype Store = Store(index: nat, pairs: map<Key, Pair>)

  type Pairs = map<Key, Pair>

  // ---------------------------------------------------------------- KV calls

  // Check-and-set of the lock entry; index 0 means create only.
  predicate CasSucceeds(pairs: Pairs, cas: nat) {
    if cas == 0 then LockKey !in pairs
    else LockKey in pairs && pairs[LockKey].modifyIndex == cas
  }

  function Put(store: Store, key: Key, pair: Pair): Store {
    Store(store.index + 1, store.pairs[key := pair.(modifyIndex := store.index + 1)])
  }

  function Remove(store: Store, key: Key): Store {
    Store(store.index + 1, store.pairs - {key})
  }

  // A dead session either takes its entries with it or only lets go of them,
  // depending on the session's behavior.
  function Invalidated(store: Store, s: Session, deletes: bool): Store {
    if deletes then
      Store(store.index + 1, map k | k in store.pairs && store.pairs[k].session != Some(s) :: store.pairs[k])
    else
      Store(store.index + 1, map k | k in store.pairs :: LetGo(store.pairs[k], s, store.index + 1))
  }

  function LetGo(pair: Pair, s: Session, index: nat): Pair {
    if pair.session == Some(s) then pair.(session := None, modifyIndex := index) else pair
  }

  // ------------------------------------------------- local computation steps

  datatype Failure = Conflict | BadEncoding | LimitConflict | InUse

  datatype Decoded = Ok(lock: Lock) | Bad

  function FindLock(pairs: Pairs): Pair {
    if LockKey in pairs then pairs[LockKey] else Pair(Nil, None, FLAG_VALUE, 0)
  }

  function DecodeLock(limit: int, pair: Pair): Decoded {
    match pair.value
    case Nil => Ok(Lock(limit, {}))
    case Encoded(l) => Ok(l)
    case Opaque => Bad
  }

  function EncodeLock(lock: Lock, oldIndex: nat): Pair {
    Pair(Encoded(lock), None, FLAG_VALUE, oldIndex)
  }

  // The sessions that own an entry under the prefix.
  function AliveSessions(pairs: Pairs): set<Session> {
    set k | k in pairs && pairs[k].session.Some? :: pairs[k].session.value
  }

  function Pruned(lock: Lock, pairs: Pairs): Lock {
    lock.(holders := lock.holders * AliveSessions(pairs))
  }

  datatype AcquireOutcome = Wait | TryLock(newLock: Pair) | AcquireFails(why: Failure)

  // From reading the prefix to attempting the compare-and-set.
  function AcquireDecision(limit: int, s: Session, pairs: Pairs): AcquireOutcome {
    var lockPair := FindLock(pairs);
    if lockPair.flags != FLAG_VALUE then AcquireFails(Conflict)
    else
      var decoded := DecodeLock(limit, lockPair);
      if decoded.Bad? then AcquireFails(BadEncoding)
      else if decoded.lock.limit != limit then AcquireFails(LimitConflict)
      else
        var lock := Pruned(decoded.lock, pairs);
        if |lock.holders| >= lock.limit then Wait
        else TryLock(EncodeLock(lock.(holders := lock.holders + {s}), lockPair.modifyIndex))
  }

  datatype ReleaseOutcome = TryUnlock(newLock: Pair) | NotHolder | ReleaseFails(why: Failure)

  // Release reads the lock entry alone, and a missing entry as an empty pair.
  function ReleaseDecision(limit: int, s: Session, pairs: Pairs): ReleaseOutcome {
    var pair := if LockKey in pairs then pairs[LockKey] else Pair(Nil, None, 0, 0);
    var decoded := DecodeLock(limit, pair);
    if decoded.Bad? then ReleaseFails(BadEncoding)
    else if s in decoded.lock.holders then
      TryUnlock(EncodeLock(decoded.lock.(holders := decoded.lock.holders - {s}), pair.modifyIndex))
    else NotHolder
  }

  datatype DestroyOutcome = NothingToDo | TryDelete(modifyIndex: nat) | DestroyFails(why: Failure)

  function DestroyDecision(limit: int, pairs: Pairs): DestroyOutcome {
    var lockPair := FindLock(pairs);
    if lockPair.modifyIndex == 0 then NothingToDo
    else if lockPair.flags != FLAG_VALUE then DestroyFails(Conflict)
    else
      var decoded := DecodeLock(limit, lockPair);
      if decoded.Bad? then DestroyFails(BadEncoding)
      else if |Pruned(decoded.lock, pairs).holders| > 0 then DestroyFails(InUse)
      else TryDelete(lockPair.modifyIndex)
  }

  // -------------------------------------------------------- the state machine

  // Where a Semaphore object stands inside Acquire, Release or Destroy.  Its
  // mutex admits one of these at a time.  Seen is the result of the last read.
  datatype Pc =
    | Idle
    | AcquireContend(session: Session)
    | AcquireWait(session: Session)
    | AcquireCas(session: Session, seen: Store)
    | ReleaseRead(session: Session)
    | ReleaseCas(session: Session, seen: Store)
    | ReleaseDelete(session: Session)
    | DestroyCas(seen: Store)

  datatype Client = Client(limit: int, configured: bool, isHeld: bool, lockSession: Option<Session>, pc: Pc)

  // History holds every store there has been, the current one last.
  datatype State = State(history: seq<Store>, sessions: set<Session>, created: set<Session>,
                         clients: map<ClientId, Client>)
  {
    function Now(): Store
      requires |history| > 0
    {
      history[|history| - 1]
    }
  }

  // How the reply to a write reaches the client.
  datatype Reply = Received | Lost

  datatype Step =
    | StartAcquire(c: ClientId, s: Session)
    | MakeContender(c: ClientId)
    | ReadPrefix(c: ClientId, age: nat)
    | CasLock(c: ClientId, reply: Reply)
    | StartRelease(c: ClientId)
    | ReadLock(c: ClientId, age: nat)
    | CasUnlock(c: ClientId, reply: Reply)
    | DeleteContender(c: ClientId)
    | ReadForDestroy(c: ClientId, age: nat)
    | DeleteLock(c: ClientId)
    | GiveUp(c: ClientId)
    | Invalidate(s: Session, deletes: bool)

  predicate Init(st: State) {
    && |st.history| == 1
    && st.history[0].pairs == map[]
    && (forall c :: c in st.clients ==>
          var cl := st.clients[c]; cl.limit > 0 && !cl.isHeld && cl.lockSession == None && cl.pc == Idle)
  }

  predicate Enabled(st: State, step: Step) {
    && st.history != []
    && match step
       case StartAcquire(c, s) =>
         && c in st.clients && st.clients[c].pc.Idle? && !st.clients[c].isHeld && s.owner == c
         && if st.clients[c].configured then s.serial == 0 else s.serial > 0 && s !in st.created
       case MakeContender(c) => c in st.clients && st.clients[c].pc.AcquireContend?
       case ReadPrefix(c, age) => c in st.clients && st.clients[c].pc.AcquireWait? && age < |st.history|
       case CasLock(c, _) => c in st.clients && st.clients[c].pc.AcquireCas?
       case StartRelease(c) =>
         c in st.clients && st.clients[c].pc.Idle? && st.clients[c].isHeld && st.clients[c].lockSession.Some?
       case ReadLock(c, age) => c in st.clients && st.clients[c].pc.ReleaseRead? && age < |st.history|
       case CasUnlock(c, _) => c in st.clients && st.clients[c].pc.ReleaseCas?
       case DeleteContender(c) => c in st.clients && st.clients[c].pc.ReleaseDelete?
       case ReadForDestroy(c, age) =>
         c in st.clients && st.clients[c].pc.Idle? && !st.clients[c].isHeld && age < |st.history|
       case DeleteLock(c) => c in st.clients && st.clients[c].pc.DestroyCas?
       case GiveUp(c) => c in st.clients && !st.clients[c].pc.Idle?
       case Invalidate(s, _) => s in st.sessions
  }

  function WithPc(st: State, c: ClientId, pc: Pc): State
    requires c in st.clients
  {
    st.(clients := st.clients[c := st.clients[c].(pc := pc)])
  }

  function WithStore(st: State, store: Store): State {
    st.(history := st.history + [store])
  }

  function Apply(st: State, step: Step): State
    requires Enabled(st, step)
  {
    match step
    case StartAcquire(c, s) =>
      var st1 := st.(clients := st.clients[c := st.clients[c].(lockSession := Some(s), pc := AcquireContend(s))]);
      if st.clients[c].configured then st1
      else st1.(sessions := st.sessions + {s}, created := st.created + {s})
    case MakeContender(c) =>
      var s := st.clients[c].pc.session;
      if s in st.sessions
      then WithPc(WithStore(st, Put(st.Now(), ContenderKey(s), Pair(Opaque, Some(s), FLAG_VALUE, 0))), c,
                  AcquireWait(s))
      else WithPc(st, c, Idle)
    case ReadPrefix(c, age) =>
      var cl := st.clients[c];
      var seen := st.history[age];
      (match AcquireDecision(cl.limit, cl.pc.session, seen.pairs)
       case Wait => st
       case TryLock(_) => WithPc(st, c, AcquireCas(cl.pc.session, seen))
       case AcquireFails(_) => WithPc(st, c, Idle))
    case CasLock(c, reply) =>
      var cl := st.clients[c];
      var d := AcquireDecision(cl.limit, cl.pc.session, cl.pc.seen.pairs);
      if d.TryLock? && CasSucceeds(st.Now().pairs, d.newLock.modifyIndex) then
        var st1 := WithStore(st, Put(st.Now(), LockKey, d.newLock));
        if reply.Received? then st1.(clients := st.clients[c := cl.(isHeld := true, pc := Idle)])
        else WithPc(st1, c, Idle)
      else if reply.Received? then WithPc(st, c, AcquireWait(cl.pc.session))
      else WithPc(st, c, Idle)
    case StartRelease(c) =>
      var cl := st.clients[c];
      st.(clients := st.clients[c := cl.(isHeld := false, lockSession := None,
                                         pc := ReleaseRead(cl.lockSession.value))])
    case ReadLock(c, age) =>
      var cl := st.clients[c];
      var seen := st.history[age];
      (match ReleaseDecision(cl.limit, cl.pc.session, seen.pairs)
       case TryUnlock(_) => WithPc(st, c, ReleaseCas(cl.pc.session, seen))
       case NotHolder => WithPc(st, c, ReleaseDelete(cl.pc.session))
       case ReleaseFails(_) => WithPc(st, c, Idle))
    case CasUnlock(c, reply) =>
      var cl := st.clients[c];
      var d := ReleaseDecision(cl.limit, cl.pc.session, cl.pc.seen.pairs);
      if d.TryUnlock? && CasSucceeds(st.Now().pairs, d.newLock.modifyIndex) then
        var st1 := WithStore(st, Put(st.Now(), LockKey, d.newLock));
        WithPc(st1, c, if reply.Received? then ReleaseDelete(cl.pc.session) else Idle)
      else WithPc(st, c, if reply.Received? then ReleaseRead(cl.pc.session) else Idle)
    case DeleteContender(c) =>
      WithPc(WithStore(st, Remove(st.Now(), ContenderKey(st.clients[c].pc.session))), c, Idle)
    case ReadForDestroy(c, age) =>
      var seen := st.history[age];
      if DestroyDecision(st.clients[c].limit, seen.pairs).TryDelete? then WithPc(st, c, DestroyCas(seen)) else st
    case DeleteLock(c) =>
      var cl := st.clients[c];
      var d := DestroyDecision(cl.limit, cl.pc.seen.pairs);
      if d.TryDelete? && d.modifyIndex > 0 && CasSucceeds(st.Now().pairs, d.modifyIndex)
      then WithPc(WithStore(st, Remove(st.Now(), LockKey)), c, Idle)
      else WithPc(st, c, Idle)
    case GiveUp(c) => WithPc(st, c, Idle)
    case Invalidate(s, deletes) =>
      WithStore(st, Invalidated(st.Now(), s, deletes)).(sessions := st.sessions - {s})
  }

  // ------------------------------------------------------------- what is safe

  // The contender entry of a session is there and still tied to it.
  predicate Alive(store: Store, s: Session) {
    ContenderKey(s) in store.pairs && store.pairs[ContenderKey(s)].session == Some(s)
  }

  // The client holds a slot and its contender entry has not been lost.
  predicate LiveHolder(st: State, c: ClientId)
    requires st.history != []
  {
    && c in st.clients && st.clients[c].isHeld
    && st.clients[c].lockSession.Some? && Alive(st.Now(), st.clients[c].lockSession.value)
  }

  function LiveHolders(st: State): set<ClientId>
    requires st.history != []
  {
    set c | c in st.clients && LiveHolder(st, c)
  }

  ghost predicate StoreOk(store: Store) {
    && (forall k :: k in store.pairs && k.ContenderKey? ==>
          store.pairs[k].session in {None, Some(k.session)})
    && (LockKey in store.pairs ==>
          var p := store.pairs[LockKey];
          && 0 < p.modifyIndex <= store.index
          && p.session == None && p.flags == FLAG_VALUE
          && p.value.Encoded? && |p.value.lock.holders| <= p.value.lock.limit)
  }

  // Equal indices mean equal locks, at any two times.
  ghost predicate IndexDetermines(history: seq<Store>) {
    forall i, j :: 0 <= i < |history| && 0 <= j < |history|
      && LockKey in history[i].pairs && LockKey in history[j].pairs
      && history[i].pairs[LockKey].modifyIndex == history[j].pairs[LockKey].modifyIndex
      ==> history[i].pairs[LockKey] == history[j].pairs[LockKey]
  }

  ghost predicate HistoryOk(history: seq<Store>) {
    && |history| > 0
    && (forall i :: 0 <= i < |history| ==> StoreOk(history[i]) && history[i].index <= history[|history| - 1].index)
    && IndexDetermines(history)
  }

  // The stores in which the lock is the one that is there now.
  predicate SameLock(a: Store, b: Store) {
    LockKey in a.pairs && LockKey in b.pairs && a.pairs[LockKey].modifyIndex == b.pairs[LockKey].modifyIndex
  }

  // A session's slot is visible in, and cannot be pruned by a reader of, any
  // store that shows the present lock.
  ghost predicate SlotSafe(history: seq<Store>, s: Session, limit: int)
    requires |history| > 0
  {
    var now := history[|history| - 1];
    && LockKey in now.pairs && now.pairs[LockKey].value.Encoded?
    && s in now.pairs[LockKey].value.lock.holders
    && now.pairs[LockKey].value.lock.limit == limit
    && (forall i :: 0 <= i < |history| && SameLock(history[i], now) ==> Alive(history[i], s))
  }

  ghost predicate ClientOk(history: seq<Store>, c: ClientId, cl: Client) {
    && cl.limit > 0
    && (cl.isHeld ==> cl.pc.Idle? && cl.lockSession.Some?)
    && (cl.lockSession.Some? ==> cl.lockSession.value.owner == c)
    && (cl.pc.AcquireContend? || cl.pc.AcquireWait? || cl.pc.AcquireCas? ==>
          cl.lockSession == Some(cl.pc.session))
    && (cl.pc.ReleaseRead? || cl.pc.ReleaseCas? || cl.pc.ReleaseDelete? ==> cl.pc.session.owner == c)
    && (cl.pc.AcquireCas? || cl.pc.ReleaseCas? || cl.pc.DestroyCas? ==> cl.pc.seen in history)
  }

  ghost predicate Inv(st: State) {
    && HistoryOk(st.history)
    && (forall c :: c in st.clients ==> ClientOk(st.history, c, st.clients[c]))
    && (forall c :: LiveHolder(st, c) ==>
          SlotSafe(st.history, st.clients[c].lockSession.value, st.clients[c].limit))
  }

  // ------------------------------------------------------------------ proofs

  // Appending a store keeps the history sound when the lock entry is
  // untouched, gone, or carries the new index.
  ghost predicate Extends(history: seq<Store>, store: Store)
    requires |history| > 0
  {
    var now := history[|history| - 1];
    && StoreOk(store)
    && store.index > now.index
    && (LockKey in store.pairs ==>
          || (LockKey in now.pairs && store.pairs[LockKey] == now.pairs[LockKey])
          || store.pairs[LockKey].modifyIndex == store.index)
  }

  lemma HistoryGrows(history: seq<Store>, store: Store)
    requires HistoryOk(history) && Extends(history, store)
    ensures HistoryOk(history + [store])
  {
    var h := history + [store];
    forall i, j | 0 <= i < |h| && 0 <= j < |h| && SameLock(h[i], h[j])
      ensures h[i].pairs[LockKey] == h[j].pairs[LockKey]
    {
      if i < |history| && j < |history| {
        assert SameLock(history[i], history[j]);
      } else if i < |history| {
        LockAgrees(history, store, i);
      } else if j < |history| {
        LockAgrees(history, store, j);
      }
    }
  }

  lemma LockAgrees(history: seq<Store>, store: Store, i: nat)
    requires HistoryOk(history) && Extends(history, store)
    requires i < |history| && SameLock(history[i], store)
    ensures history[i].pairs[LockKey] == store.pairs[LockKey]
  {
    assert history[i].pairs[LockKey].modifyIndex <= history[i].index < store.index;
  }

  // A slot survives every write that leaves the lock entry alone.
  lemma SlotKept(history: seq<Store>, store: Store, s: Session, limit: int)
    requires HistoryOk(history) && Extends(history, store)
    requires SlotSafe(history, s, limit) && Alive(store, s)
    requires LockKey in store.pairs && store.pairs[LockKey] == history[|history| - 1].pairs[LockKey]
    ensures SlotSafe(history + [store], s, limit)
  {
    var h := history + [store];
    forall i | 0 <= i < |h| && SameLock(h[i], store)
      ensures Alive(h[i], s)
    {
      if i < |history| {
        assert SameLock(history[i], history[|history| - 1]);
      }
    }
  }

  // A slot survives, or is created by, a new version of the lock that lists it.
  lemma SlotInNewLock(history: seq<Store>, store: Store, s: Session, limit: int)
    requires HistoryOk(history) && Extends(history, store) && Alive(store, s)
    requires LockKey in store.pairs && store.pairs[LockKey].modifyIndex == store.index
    requires s in store.pairs[LockKey].value.lock.holders && store.pairs[LockKey].value.lock.limit == limit
    ensures SlotSafe(history + [store], s, limit)
  {
    var h := history + [store];
    assert forall i :: 0 <= i < |history| && LockKey in history[i].pairs ==>
      history[i].pairs[LockKey].modifyIndex <= history[i].index < store.index;
    assert forall i :: 0 <= i < |h| && SameLock(h[i], store) ==> i == |history|;
  }

  // What a reader saw is the present lock if its compare-and-set goes through.
  lemma SeenIsCurrent(history: seq<Store>, seen: Store)
    requires HistoryOk(history) && seen in history
    requires LockKey in seen.pairs && CasSucceeds(history[|history| - 1].pairs, seen.pairs[LockKey].modifyIndex)
    ensures StoreOk(seen) && SameLock(seen, history[|history| - 1])
    ensures seen.pairs[LockKey] == history[|history| - 1].pairs[LockKey]
  {
    var i :| 0 <= i < |history| && history[i] == seen;
    assert SameLock(history[i], history[|history| - 1]);
  }

  lemma SeenIsOk(history: seq<Store>, seen: Store)
    requires HistoryOk(history) && seen in history
    ensures StoreOk(seen)
  {
  }

  lemma AliveIsListed(store: Store, s: Session)
    requires Alive(store, s)
    ensures s in AliveSessions(store.pairs)
  {
    assert store.pairs[ContenderKey(s)].session.value == s;
  }

  lemma ListedIsAlive(store: Store, s: Session)
    requires StoreOk(store) && s in AliveSessions(store.pairs)
    ensures Alive(store, s)
  {
    var k :| k in store.pairs && store.pairs[k].session.Some? && store.pairs[k].session.value == s;
    assert k.ContenderKey?;
    assert store.pairs[k].session in {None, Some(k.session)};
    assert k == ContenderKey(s) && store.pairs[k].session == Some(s);
  }

  // Nothing of a live slot is lost between the read and the compare-and-set.
  lemma HolderNotPruned(history: seq<Store>, seen: Store, s: Session, limit: int)
    requires HistoryOk(history) && seen in history && SlotSafe(history, s, limit)
    requires LockKey in seen.pairs && CasSucceeds(history[|history| - 1].pairs, seen.pairs[LockKey].modifyIndex)
    ensures seen.pairs[LockKey].value.Encoded?
    ensures s in Pruned(seen.pairs[LockKey].value.lock, seen.pairs).holders
  {
    SeenIsCurrent(history, seen);
    var i :| 0 <= i < |history| && history[i] == seen;
    assert Alive(history[i], s);
    AliveIsListed(seen, s);
  }

  // A step of one client that writes nothing and does not make it a holder.
  lemma QuietStep(st: State, st': State, c: ClientId)
    requires Inv(st) && st'.history == st.history
    requires c in st'.clients && st'.clients == st.clients[c := st'.clients[c]]
    requires ClientOk(st.history, c, st'.clients[c]) && !st'.clients[c].isHeld
    ensures Inv(st')
  {
    forall d | LiveHolder(st', d)
      ensures SlotSafe(st'.history, st'.clients[d].lockSession.value, st'.clients[d].limit)
    {
      assert LiveHolder(st, d);
    }
  }

  // A step that writes the store and changes at most the client c.
  lemma WritingStep(st: State, st': State, store: Store, c: ClientId)
    requires Inv(st) && Extends(st.history, store) && st'.history == st.history + [store]
    requires forall d :: d in st'.clients && d != c ==> d in st.clients && st'.clients[d] == st.clients[d]
    requires c in st'.clients ==> ClientOk(st'.history, c, st'.clients[c])
    requires forall d :: LiveHolder(st', d) ==>
      SlotSafe(st'.history, st'.clients[d].lockSession.value, st'.clients[d].limit)
    ensures Inv(st')
  {
    HistoryGrows(st.history, store);
    assert forall d :: d in st'.clients && d != c ==> ClientOk(st.history, d, st.clients[d]);
  }

  lemma MakeContenderKeeps(st: State, c: ClientId)
    requires Inv(st) && Enabled(st, MakeContender(c))
    ensures Inv(Apply(st, MakeContender(c)))
  {
    var st' := Apply(st, MakeContender(c));
    var s := st.clients[c].pc.session;
    assert ClientOk(st.history, c, st.clients[c]);
    if s in st.sessions {
      var store := Put(st.Now(), ContenderKey(s), Pair(Opaque, Some(s), FLAG_VALUE, 0));
      forall d | LiveHolder(st', d)
        ensures SlotSafe(st'.history, st'.clients[d].lockSession.value, st'.clients[d].limit)
      {
        assert ClientOk(st.history, d, st.clients[d]);
        assert LiveHolder(st, d);
        SlotKept(st.history, store, st.clients[d].lockSession.value, st.clients[d].limit);
      }
      WritingStep(st, st', store, c);
    } else {
      QuietStep(st, st', c);
    }
  }

  // Installing a new version of the lock that still lists every live holder.
  lemma NewLockStep(st: State, st': State, newLock: Pair, c: ClientId)
    requires Inv(st) && st'.history == st.history + [Put(st.Now(), LockKey, newLock)]
    requires newLock.value.Encoded? && newLock.flags == FLAG_VALUE && newLock.session == None
    requires |newLock.value.lock.holders| <= newLock.value.lock.limit
    requires c in st.clients && c in st'.clients && st'.clients == st.clients[c := st'.clients[c]]
    requires ClientOk(st'.history, c, st'.clients[c])
    requires forall d :: LiveHolder(st', d) ==>
      && st'.clients[d].lockSession.value in newLock.value.lock.holders
      && st'.clients[d].limit == newLock.value.lock.limit
    ensures Inv(st')
  {
    var store := Put(st.Now(), LockKey, newLock);
    forall d | LiveHolder(st', d)
      ensures SlotSafe(st'.history, st'.clients[d].lockSession.value, st'.clients[d].limit)
    {
      SlotInNewLock(st.history, store, st'.clients[d].lockSession.value, st'.clients[d].limit);
    }
    WritingStep(st, st', store, c);
  }

  function CasToLock(cl: Client): AcquireOutcome
    requires cl.pc.AcquireCas?
  {
    AcquireDecision(cl.limit, cl.pc.session, cl.pc.seen.pairs)
  }

  // The lock a successful compare-and-set of Acquire puts in place.
  lemma NewLockBounds(st: State, c: ClientId)
    requires Inv(st) && c in st.clients && st.clients[c].pc.AcquireCas? && CasToLock(st.clients[c]).TryLock?
    requires CasSucceeds(st.Now().pairs, CasToLock(st.clients[c]).newLock.modifyIndex)
    ensures
      var newLock := CasToLock(st.clients[c]).newLock;
      && newLock.value.Encoded? && newLock.flags == FLAG_VALUE && newLock.session == None
      && |newLock.value.lock.holders| <= newLock.value.lock.limit == st.clients[c].limit
      && st.clients[c].pc.session in newLock.value.lock.holders
      && (LockKey in st.Now().pairs ==>
            st.Now().pairs[LockKey].value.Encoded? &&
            st.Now().pairs[LockKey].value.lock.limit == newLock.value.lock.limit)
      && (forall d :: LiveHolder(st, d) ==>
            && st.clients[d].lockSession.value in newLock.value.lock.holders
            && st.clients[d].limit == newLock.value.lock.limit)
  {
    var cl := st.clients[c];
    assert ClientOk(st.history, c, cl);
    SeenIsOk(st.history, cl.pc.seen);
    if LockKey in cl.pc.seen.pairs {
      SeenIsCurrent(st.history, cl.pc.seen);
      forall d | LiveHolder(st, d)
        ensures st.clients[d].lockSession.value in CasToLock(cl).newLock.value.lock.holders
      {
        HolderNotPruned(st.history, cl.pc.seen, st.clients[d].lockSession.value, st.clients[d].limit);
      }
    }
  }

  lemma CasLockKeeps(st: State, c: ClientId, reply: Reply)
    requires Inv(st) && Enabled(st, CasLock(c, reply))
    ensures Inv(Apply(st, CasLock(c, reply)))
  {
    var st' := Apply(st, CasLock(c, reply));
    var cl := st.clients[c];
    assert ClientOk(st.history, c, cl);
    var d := CasToLock(cl);
    if d.TryLock? && CasSucceeds(st.Now().pairs, d.newLock.modifyIndex) {
      NewLockBounds(st, c);
      forall h | LiveHolder(st', h)
        ensures st'.clients[h].lockSession.value in d.newLock.value.lock.holders
        ensures st'.clients[h].limit == d.newLock.value.lock.limit
      {
        assert h != c ==> LiveHolder(st, h);
      }
      NewLockStep(st, st', d.newLock, c);
    } else {
      QuietStep(st, st', c);
    }
  }

  lemma CasUnlockKeeps(st: State, c: ClientId, reply: Reply)
    requires Inv(st) && Enabled(st, CasUnlock(c, reply))
    ensures Inv(Apply(st, CasUnlock(c, reply)))
  {
    var st' := Apply(st, CasUnlock(c, reply));
    var cl := st.clients[c];
    assert ClientOk(st.history, c, cl);
    var d := ReleaseDecision(cl.limit, cl.pc.session, cl.pc.seen.pairs);
    if d.TryUnlock? && CasSucceeds(st.Now().pairs, d.newLock.modifyIndex) {
      SeenIsCurrent(st.history, cl.pc.seen);
      forall h | LiveHolder(st', h)
        ensures st'.clients[h].lockSession.value in d.newLock.value.lock.holders
        ensures st'.clients[h].limit == d.newLock.value.lock.limit
      {
        assert ClientOk(st.history, h, st.clients[h]);
        assert LiveHolder(st, h);
      }
      NewLockStep(st, st', d.newLock, c);
    } else {
      QuietStep(st, st', c);
    }
  }

  lemma DeleteContenderKeeps(st: State, c: ClientId)
    requires Inv(st) && Enabled(st, DeleteContender(c))
    ensures Inv(Apply(st, DeleteContender(c)))
  {
    var st' := Apply(st, DeleteContender(c));
    var store := Remove(st.Now(), ContenderKey(st.clients[c].pc.session));
    assert ClientOk(st.history, c, st.clients[c]);
    forall h | LiveHolder(st', h)
      ensures SlotSafe(st'.history, st'.clients[h].lockSession.value, st'.clients[h].limit)
    {
      assert ClientOk(st.history, h, st.clients[h]);
      assert LiveHolder(st, h);
      SlotKept(st.history, store, st.clients[h].lockSession.value, st.clients[h].limit);
    }
    WritingStep(st, st', store, c);
  }

  // Destroy only deletes a lock in which it saw nobody alive, and no live
  // holder can be missing from what it saw.
  lemma DeletedLockHasNoLiveHolder(st: State, c: ClientId)
    requires Inv(st) && c in st.clients && st.clients[c].pc.DestroyCas?
    requires DestroyDecision(st.clients[c].limit, st.clients[c].pc.seen.pairs).TryDelete?
    requires CasSucceeds(st.Now().pairs, DestroyDecision(st.clients[c].limit, st.clients[c].pc.seen.pairs).modifyIndex)
    ensures forall h :: !LiveHolder(st, h)
  {
    assert ClientOk(st.history, c, st.clients[c]);
    var seen := st.clients[c].pc.seen;
    SeenIsCurrent(st.history, seen);
    forall h | LiveHolder(st, h)
      ensures false
    {
      HolderNotPruned(st.history, seen, st.clients[h].lockSession.value, st.clients[h].limit);
    }
  }

  lemma DeleteLockKeeps(st: State, c: ClientId)
    requires Inv(st) && Enabled(st, DeleteLock(c))
    ensures Inv(Apply(st, DeleteLock(c)))
  {
    var st' := Apply(st, DeleteLock(c));
    var cl := st.clients[c];
    assert ClientOk(st.history, c, cl);
    var d := DestroyDecision(cl.limit, cl.pc.seen.pairs);
    if d.TryDelete? && d.modifyIndex > 0 && CasSucceeds(st.Now().pairs, d.modifyIndex) {
      DeletedLockHasNoLiveHolder(st, c);
      assert forall h :: LiveHolder(st', h) ==> LiveHolder(st, h);
      WritingStep(st, st', Remove(st.Now(), LockKey), c);
    } else {
      QuietStep(st, st', c);
    }
  }

  lemma InvalidateKeeps(st: State, s: Session, deletes: bool)
    requires Inv(st) && Enabled(st, Invalidate(s, deletes))
    ensures Inv(Apply(st, Invalidate(s, deletes)))
  {
    var st' := Apply(st, Invalidate(s, deletes));
    var store := Invalidated(st.Now(), s, deletes);
    forall h | LiveHolder(st', h)
      ensures SlotSafe(st'.history, st'.clients[h].lockSession.value, st'.clients[h].limit)
    {
      assert LiveHolder(st, h);
      SlotKept(st.history, store, st.clients[h].lockSession.value, st.clients[h].limit);
    }
    assert forall d :: d in st.clients ==> ClientOk(st.history, d, st.clients[d]);
    WritingStep(st, st', store, s.owner);
  }

  predicate IsLocal(step: Step) {
    step.StartAcquire? || step.StartRelease? || step.ReadPrefix? || step.ReadLock? || step.ReadForDestroy?
      || step.GiveUp?
  }

  lemma LocalStepKeeps(st: State, step: Step)
    requires Inv(st) && IsLocal(step) && Enabled(st, step)
    ensures Inv(Apply(st, step))
  {
    hide Inv;
    LocalStepIsQuiet(st, step);
    QuietStep(st, Apply(st, step), step.c);
  }

  // Such a step touches its own client only, and leaves it without a slot.
  lemma LocalStepIsQuiet(st: State, step: Step)
    requires Inv(st) && IsLocal(step) && Enabled(st, step)
    ensures var st' := Apply(st, step);
            && st'.history == st.history && step.c in st'.clients
            && st'.clients == st.clients[step.c := st'.clients[step.c]]
            && ClientOk(st.history, step.c, st'.clients[step.c]) && !st'.clients[step.c].isHeld
  {
    assert ClientOk(st.history, step.c, st.clients[step.c]);
    assert st.clients == st.clients[step.c := st.clients[step.c]];
    hide Inv, AcquireDecision, ReleaseDecision, DestroyDecision, Apply;
    if step.StartAcquire? || step.StartRelease? || step.GiveUp? {
      StartIsQuiet(st, step);
    } else {
      ReadIsQuiet(st, step);
    }
  }

  lemma StartIsQuiet(st: State, step: Step)
    requires Enabled(st, step) && (step.StartAcquire? || step.StartRelease? || step.GiveUp?)
    requires ClientOk(st.history, step.c, st.clients[step.c])
    ensures var st' := Apply(st, step);
            && st'.history == st.history && step.c in st'.clients
            && st'.clients == st.clients[step.c := st'.clients[step.c]]
            && ClientOk(st.history, step.c, st'.clients[step.c]) && !st'.clients[step.c].isHeld
  {
  }

  lemma ReadIsQuiet(st: State, step: Step)
    requires Enabled(st, step) && (step.ReadPrefix? || step.ReadLock? || step.ReadForDestroy?)
    requires ClientOk(st.history, step.c, st.clients[step.c])
    requires st.clients == st.clients[step.c := st.clients[step.c]]
    ensures var st' := Apply(st, step);
            && st'.history == st.history && step.c in st'.clients
            && st'.clients == st.clients[step.c := st'.clients[step.c]]
            && ClientOk(st.history, step.c, st'.clients[step.c]) && !st'.clients[step.c].isHeld
  {
    hide AcquireDecision, ReleaseDecision, DestroyDecision;
  }

  lemma StepKeepsInv(st: State, step: Step)
    requires Inv(st) && Enabled(st, step)
    ensures Inv(Apply(st, step))
  {
    match step
    case MakeContender(c) => MakeContenderKeeps(st, c);
    case CasLock(c, reply) => CasLockKeeps(st, c, reply);
    case CasUnlock(c, reply) => CasUnlockKeeps(st, c, reply);
    case DeleteContender(c) => DeleteContenderKeeps(st, c);
    case DeleteLock(c) => DeleteLockKeeps(st, c);
    case Invalidate(s, deletes) => InvalidateKeeps(st, s, deletes);
    case _ => LocalStepKeeps(st, step);
  }

  // ------------------------------------------------------ safety of all runs

  ghost predicate Legal(st: State, steps: seq<Step>)
    decreases |steps|
  {
    steps == [] || (Enabled(st, steps[0]) && Legal(Apply(st, steps[0]), steps[1..]))
  }

  function After(st: State, steps: seq<Step>): State
    requires Legal(st, steps)
    decreases |steps|
  {
    if steps == [] then st else After(Apply(st, steps[0]), steps[1..])
  }

  // The lock entry as the store has it.
  predicate HasLock(st: State) {
    st.history != [] && LockKey in st.Now().pairs && st.Now().pairs[LockKey].value.Encoded?
  }

  function StoredLock(st: State): Lock
    requires HasLock(st)
  {
    st.Now().pairs[LockKey].value.lock
  }

  lemma {:induction false} RunKeepsInv(st: State, steps: seq<Step>)
    requires Inv(st) && Legal(st, steps)
    ensures Inv(After(st, steps))
    decreases |steps|
  {
    if steps != [] {
      StepKeepsInv(st, steps[0]);
      RunKeepsInv(Apply(st, steps[0]), steps[1..]);
    }
  }

  lemma RunFromInit(init: State, steps: seq<Step>)
    requires Init(init) && Legal(init, steps)
    ensures Inv(After(init, steps))
  {
    assert Inv(init);
    hide Inv, Init, Apply;
    RunKeepsInv(init, steps);
  }

  // Distinct clients own distinct sessions, so live holders are counted by the stored holder set.
  lemma {:induction false} CountHolders(st: State, cs: set<ClientId>, holders: set<Session>)
    requires Inv(st) && cs <= LiveHolders(st)
    requires forall c :: c in cs ==> st.clients[c].lockSession.value in holders
    ensures |cs| <= |holders|
    decreases cs
  {
    if cs != {} {
      var c :| c in cs;
      var s := st.clients[c].lockSession.value;
      forall d | d in cs - {c}
        ensures st.clients[d].lockSession.value in holders - {s}
      {
        assert ClientOk(st.history, c, st.clients[c]) && ClientOk(st.history, d, st.clients[d]);
      }
      CountHolders(st, cs - {c}, holders - {s});
      assert |cs - {c}| == |cs| - 1 && |holders - {s}| == |holders| - 1;
    }
  }

  // In every run: the stored lock never lists more holders than its limit, every live holder is
  // listed under its own limit, and no more than that many clients are live holders at once.
  lemma AtMostLimitHold(init: State, steps: seq<Step>)
    requires Init(init) && Legal(init, steps)
    ensures
      var st := After(init, steps);
      && st.history != []
      && (HasLock(st) ==> |StoredLock(st).holders| <= StoredLock(st).limit)
      && (forall c :: LiveHolder(st, c) ==>
            && HasLock(st)
            && st.clients[c].lockSession.value in StoredLock(st).holders
            && |LiveHolders(st)| <= StoredLock(st).limit == st.clients[c].limit)
  {
    RunFromInit(init, steps);
    var st := After(init, steps);
    if c :| LiveHolder(st, c) {
      CountHolders(st, LiveHolders(st), StoredLock(st).holders);
    }
  }

  // A semaphore of limit one is a mutex between live holders.
  lemma LimitOneExcludes(init: State, steps: seq<Step>, c: ClientId, d: ClientId)
    requires Init(init) && Legal(init, steps) && After(init, steps).history != []
    requires LiveHolder(After(init, steps), c) && LiveHolder(After(init, steps), d)
    requires After(init, steps).clients[c].limit == 1
    ensures c == d
  {
    AtMostLimitHold(init, steps);
    AtMostOne(LiveHolders(After(init, steps)), c, d);
  }

  lemma AtMostOne<T>(s: set<T>, a: T, b: T)
    requires a in s && b in s && |s| <= 1
    ensures a == b
  {
    assert |s - {a}| == |s| - 1;
  }

  // One step never changes the limit of an entry that stays, and an entry
  // that goes had no live holder.
  lemma StepRespectsLock(st: State, step: Step)
    requires Inv(st) && Enabled(st, step) && HasLock(st)
    ensures HasLock(Apply(st, step)) ==> StoredLock(Apply(st, step)).limit == StoredLock(st).limit
    ensures !HasLock(Apply(st, step)) ==> step.DeleteLock? && LiveHolders(st) == {}
  {
    match step
    case CasLock(c, reply) => CasLockRespects(st, c, reply);
    case CasUnlock(c, reply) => CasUnlockRespects(st, c, reply);
    case DeleteLock(c) => DeleteLockRespects(st, c);
    case Invalidate(s, deletes) => InvalidateRespects(st, s, deletes);
    case _ => OtherStepRespects(st, step);
  }

  lemma CasLockRespects(st: State, c: ClientId, reply: Reply)
    requires Inv(st) && Enabled(st, CasLock(c, reply)) && HasLock(st)
    ensures HasLock(Apply(st, CasLock(c, reply)))
    ensures StoredLock(Apply(st, CasLock(c, reply))).limit == StoredLock(st).limit
  {
    hide Inv;
    var d := CasToLock(st.clients[c]);
    if d.TryLock? && CasSucceeds(st.Now().pairs, d.newLock.modifyIndex) { NewLockBounds(st, c); }
  }

  lemma CasUnlockRespects(st: State, c: ClientId, reply: Reply)
    requires Inv(st) && Enabled(st, CasUnlock(c, reply)) && HasLock(st)
    ensures HasLock(Apply(st, CasUnlock(c, reply)))
    ensures StoredLock(Apply(st, CasUnlock(c, reply))).limit == StoredLock(st).limit
  {
    var cl := st.clients[c];
    assert ClientOk(st.history, c, cl);
    hide StoreOk;
    var d := ReleaseDecision(cl.limit, cl.pc.session, cl.pc.seen.pairs);
    if d.TryUnlock? && CasSucceeds(st.Now().pairs, d.newLock.modifyIndex) { SeenIsCurrent(st.history, cl.pc.seen); }
  }

  lemma DeleteLockRespects(st: State, c: ClientId)
    requires Inv(st) && Enabled(st, DeleteLock(c)) && HasLock(st)
    ensures HasLock(Apply(st, DeleteLock(c))) ==> StoredLock(Apply(st, DeleteLock(c))).limit == StoredLock(st).limit
    ensures !HasLock(Apply(st, DeleteLock(c))) ==> LiveHolders(st) == {}
  {
    hide Inv, LiveHolder;
    var d := DestroyDecision(st.clients[c].limit, st.clients[c].pc.seen.pairs);
    if d.TryDelete? && CasSucceeds(st.Now().pairs, d.modifyIndex) { DeletedLockHasNoLiveHolder(st, c); }
  }

  lemma InvalidateRespects(st: State, s: Session, deletes: bool)
    requires Inv(st) && Enabled(st, Invalidate(s, deletes)) && HasLock(st)
    ensures HasLock(Apply(st, Invalidate(s, deletes)))
    ensures StoredLock(Apply(st, Invalidate(s, deletes))).limit == StoredLock(st).limit
  {
    assert StoreOk(st.Now());
    hide Inv;
  }

  lemma OtherStepRespects(st: State, step: Step)
    requires Enabled(st, step) && HasLock(st)
    requires IsLocal(step) || step.MakeContender? || step.DeleteContender?
    ensures HasLock(Apply(st, step)) && StoredLock(Apply(st, step)) == StoredLock(st)
  {
    hide AcquireDecision, ReleaseDecision, DestroyDecision;
  }

  // The entry is there before, between and after the steps.
  ghost predicate LockedThroughout(st: State, steps: seq<Step>)
    requires Legal(st, steps)
    decreases |steps|
  {
    HasLock(st) && (steps != [] ==> LockedThroughout(Apply(st, steps[0]), steps[1..]))
  }

  // The limit is constant for as long as the entry exists.
  lemma {:induction false} LimitConstant(st: State, steps: seq<Step>)
    requires Inv(st) && Legal(st, steps) && LockedThroughout(st, steps)
    ensures HasLock(After(st, steps)) && StoredLock(After(st, steps)).limit == StoredLock(st).limit
    decreases |steps|
  {
    if steps != [] {
      StepKeepsInv(st, steps[0]);
      StepRespectsLock(st, steps[0]);
      LimitConstant(Apply(st, steps[0]), steps[1..]);
    }
  }

  lemma LimitConstantInRuns(init: State, before: seq<Step>, during: seq<Step>)
    requires Init(init) && Legal(init, before) && Legal(After(init, before), during)
    requires LockedThroughout(After(init, before), during)
    ensures HasLock(After(After(init, before), during))
    ensures StoredLock(After(After(init, before), during)).limit == StoredLock(After(init, before)).limit
  {
    RunFromInit(init, before);
    LimitConstant(After(init, before), during);
  }

  // In every run, an entry only disappears through Destroy, and at that moment nobody is a live holder.
  lemma DestroyRemovesOnlyUnusedLock(init: State, steps: seq<Step>, st: State, last: Step)
    requires Init(init) && Legal(init, steps) && st == After(init, steps) && Enabled(st, last)
    requires HasLock(st)
    ensures HasLock(Apply(st, last)) || (last.DeleteLock? && LiveHolders(st) == {})
  {
    hide Inv, Apply;
    assert Inv(st) by { RunFromInit(init, steps); }
    StepRespectsLock(st, last);
  }

  // What monitorLock looks for in a consistent read: it gives the slot up
  // exactly when the contender entry has been lost.
  predicate MonitorSeesSlot(limit: int, s: Session, pairs: Pairs) {
    var decoded := DecodeLock(limit, FindLock(pairs));
    decoded.Ok? && s in Pruned(decoded.lock, pairs).holders
  }

  lemma MonitorIsExact(init: State, steps: seq<Step>, c: ClientId)
    requires Init(init) && Legal(init, steps) && After(init, steps).history != []
    requires c in After(init, steps).clients && After(init, steps).clients[c].isHeld
    ensures
      var st := After(init, steps);
      st.clients[c].lockSession.Some? &&
      (MonitorSeesSlot(st.clients[c].limit, st.clients[c].lockSession.value, st.Now().pairs)
       <==> Alive(st.Now(), st.clients[c].lockSession.value))
  {
    hide Apply;
    RunFromInit(init, steps);
    var st := After(init, steps);
    assert ClientOk(st.history, c, st.clients[c]);
    var s := st.clients[c].lockSession.value;
    if Alive(st.Now(), s) {
      assert LiveHolder(st, c);
      AliveIsListed(st.Now(), s);
    }
    if s in AliveSessions(st.Now().pairs) {
      ListedIsAlive(st.Now(), s);
    }
  }

  // The conflict and decoding errors cannot arise between semaphore clients,
  // whatever store is read.
  lemma NoConflictBetweenClients(init: State, steps: seq<Step>, age: nat, limit: int, s: Session)
    requires Init(init) && Legal(init, steps) && age < |After(init, steps).history|
    ensures AcquireDecision(limit, s, After(init, steps).history[age].pairs)
      !in {AcquireFails(Conflict), AcquireFails(BadEncoding)}
    ensures DestroyDecision(limit, After(init, steps).history[age].pairs)
      !in {DestroyFails(Conflict), DestroyFails(BadEncoding)}
  {
    RunFromInit(init, steps);
    assert StoreOk(After(init, steps).history[age]);
  }

  // --------------------------------------------------- what Acquire achieves

  // There is no lock yet, or it has the client's limit and room for one more
  // beside the holders that are alive once s contends.
  predicate Room(st: State, c: ClientId, s: Session)
    requires st.history != [] && c in st.clients
  {
    HasLock(st) ==>
      && StoredLock(st).limit == st.clients[c].limit
      && |StoredLock(st).holders * (AliveSessions(st.Now().pairs) + {s})| < StoredLock(st).limit
  }

  // The contender entry of s, and nothing else, becomes alive.
  lemma ContenderAdds(store: Store, s: Session)
    ensures var next := Put(store, ContenderKey(s), Pair(Opaque, Some(s), FLAG_VALUE, 0));
            && Alive(next, s)
            && (StoreOk(store) ==> AliveSessions(next.pairs) == AliveSessions(store.pairs) + {s})
            && (LockKey in next.pairs <==> LockKey in store.pairs)
            && (LockKey in store.pairs ==> next.pairs[LockKey] == store.pairs[LockKey])
  {
    var next := Put(store, ContenderKey(s), Pair(Opaque, Some(s), FLAG_VALUE, 0));
    assert next.pairs[ContenderKey(s)].session == Some(s);
    if StoreOk(store) {
      forall x | x in AliveSessions(store.pairs)
        ensures x in AliveSessions(next.pairs)
      {
        var k :| k in store.pairs && store.pairs[k].session == Some(x);
        assert k == ContenderKey(s) ==> x == s;
        assert k != ContenderKey(s) ==> next.pairs[k] == store.pairs[k];
      }
    }
  }

  predicate FreeSlot(limit: int, store: Store) {
    LockKey in store.pairs ==>
      && store.pairs[LockKey].value.Encoded?
      && var lock := store.pairs[LockKey].value.lock;
         lock.limit == limit && |lock.holders * AliveSessions(store.pairs)| < limit
  }

  // Acquire goes on to a compare-and-set exactly if its listing shows a free slot.
  lemma DecidesBySlot(limit: int, s: Session, store: Store)
    requires StoreOk(store) && limit > 0
    ensures var d := AcquireDecision(limit, s, store.pairs);
            && (d.TryLock? <==> FreeSlot(limit, store))
            && (d.TryLock? ==>
                  && CasSucceeds(store.pairs, d.newLock.modifyIndex)
                  && d.newLock.value.Encoded? && s in d.newLock.value.lock.holders)
  {
  }

  lemma RoomIsSlot(st: State, c: ClientId, s: Session)
    requires Inv(st) && c in st.clients
    ensures var next := Put(st.Now(), ContenderKey(s), Pair(Opaque, Some(s), FLAG_VALUE, 0));
            Room(st, c, s) <==> FreeSlot(st.clients[c].limit, next)
  {
    assert StoreOk(st.Now());
    ContenderAdds(st.Now(), s);
  }

  // The client's way up to the compare-and-set.
  ghost function Contending(c: ClientId, s: Session, age: nat): seq<Step> {
    [StartAcquire(c, s), MakeContender(c), ReadPrefix(c, age)]
  }

  // The state behind its first two steps.
  lemma Contends(st: State, c: ClientId, s: Session)
    requires Inv(st) && Enabled(st, StartAcquire(c, s)) && (st.clients[c].configured ==> s in st.sessions)
    ensures var st1 := Apply(st, StartAcquire(c, s));
            Enabled(st1, MakeContender(c)) &&
            var st2 := Apply(st1, MakeContender(c));
            && Inv(st2) && |st2.history| == |st.history| + 1 && Alive(st2.Now(), s)
            && c in st2.clients && st2.clients[c] == st.clients[c].(lockSession := Some(s), pc := AcquireWait(s))
            && (Room(st, c, s) <==> FreeSlot(st.clients[c].limit, st2.Now()))
  {
    ContendSteps(st, c, s);
    RoomIsSlot(st, c, s);
    ContenderAdds(st.Now(), s);
    hide Apply, Inv, Room, FreeSlot, Alive, Put;
    var step := StartAcquire(c, s);
    StepKeepsInv(st, step);
    StepKeepsInv(Apply(st, step), MakeContender(c));
  }

  lemma ContendSteps(st: State, c: ClientId, s: Session)
    requires Enabled(st, StartAcquire(c, s)) && (st.clients[c].configured ==> s in st.sessions)
    ensures var st1 := Apply(st, StartAcquire(c, s));
            Enabled(st1, MakeContender(c)) &&
            var st2 := Apply(st1, MakeContender(c));
            && st2.history == st.history + [Put(st.Now(), ContenderKey(s), Pair(Opaque, Some(s), FLAG_VALUE, 0))]
            && c in st2.clients && st2.clients[c] == st.clients[c].(lockSession := Some(s), pc := AcquireWait(s))
  {
    hide Put;
  }

  /**
   * A client that acquires undisturbed, its session alive and its listing
   * current, holds a slot afterwards if and only if there was room; without room
   * it does not come to the compare-and-set.
   */
  lemma AcquireExactly(st: State, c: ClientId, s: Session)
    requires Inv(st) && Enabled(st, StartAcquire(c, s)) && (st.clients[c].configured ==> s in st.sessions)
    ensures Legal(st, Contending(c, s, |st.history|))
    ensures var st3 := After(st, Contending(c, s, |st.history|));
            && (Enabled(st3, CasLock(c, Received)) <==> Room(st, c, s))
            && (Room(st, c, s) ==>
                  var st4 := Apply(st3, CasLock(c, Received));
                  st4.history != [] && LiveHolder(st4, c) && HasLock(st4) && s in StoredLock(st4).holders)
  {
    hide Apply, Enabled, Inv, Room, FreeSlot, Alive, LiveHolder, HasLock, Legal, After;
    Contends(st, c, s);
    LocksBySlot(Apply(Apply(st, StartAcquire(c, s)), MakeContender(c)), c, s);
    ThreeSteps(st, StartAcquire(c, s), MakeContender(c), ReadPrefix(c, |st.history|));
  }

  // The last two steps: reading the present listing, and the compare-and-set.
  lemma LocksBySlot(st: State, c: ClientId, s: Session)
    requires Inv(st) && c in st.clients && st.clients[c].pc == AcquireWait(s) && Alive(st.Now(), s)
    ensures var read := ReadPrefix(c, |st.history| - 1);
            Enabled(st, read) &&
            var next := Apply(st, read);
            && (Enabled(next, CasLock(c, Received)) <==> FreeSlot(st.clients[c].limit, st.Now()))
            && (FreeSlot(st.clients[c].limit, st.Now()) ==>
                  var last := Apply(next, CasLock(c, Received));
                  last.history != [] && LiveHolder(last, c) && HasLock(last) && s in StoredLock(last).holders)
  {
    assert StoreOk(st.Now()) && ClientOk(st.history, c, st.clients[c]);
    var limit := st.clients[c].limit;
    DecidesBySlot(limit, s, st.Now());
    ReadsNow(st, c, s);
    hide AcquireDecision, FreeSlot, StoreOk, ClientOk, Inv, Apply, Alive, LiveHolder, HasLock;
    if FreeSlot(limit, st.Now()) { Installs(WithPc(st, c, AcquireCas(s, st.Now())), c, s); }
  }

  lemma ReadsNow(st: State, c: ClientId, s: Session)
    requires st.history != [] && c in st.clients && st.clients[c].pc == AcquireWait(s)
    ensures var read := ReadPrefix(c, |st.history| - 1);
            Enabled(st, read) &&
            var next, d := Apply(st, read), AcquireDecision(st.clients[c].limit, s, st.Now().pairs);
            && next.history == st.history
            && (d.TryLock? ==> next == WithPc(st, c, AcquireCas(s, st.Now())))
            && (!d.TryLock? ==> c in next.clients && !next.clients[c].pc.AcquireCas?)
  {
    hide AcquireDecision;
  }

  lemma Installs(st: State, c: ClientId, s: Session)
    requires st.history != [] && c in st.clients && st.clients[c].pc == AcquireCas(s, st.Now())
    requires st.clients[c].lockSession == Some(s) && Alive(st.Now(), s)
    requires var d := AcquireDecision(st.clients[c].limit, s, st.Now().pairs);
             && d.TryLock? && CasSucceeds(st.Now().pairs, d.newLock.modifyIndex)
             && d.newLock.value.Encoded? && s in d.newLock.value.lock.holders
    ensures Enabled(st, CasLock(c, Received))
    ensures var last := Apply(st, CasLock(c, Received));
            last.history != [] && LiveHolder(last, c) && HasLock(last) && s in StoredLock(last).holders
  {
    hide AcquireDecision, CasSucceeds;
  }

  lemma ThreeSteps(st: State, a: Step, b: Step, d: Step)
    requires Enabled(st, a) && Enabled(Apply(st, a), b) && Enabled(Apply(Apply(st, a), b), d)
    ensures Legal(st, [a, b, d]) && After(st, [a, b, d]) == Apply(Apply(Apply(st, a), b), d)
  {
    hide Enabled, Apply;
    assert [a, b, d][1..] == [b, d] && [b, d][1..] == [d] && [d][1..] == [];
    var st2 := Apply(Apply(st, a), b);
    assert Legal(st2, [d]) && After(st2, [d]) == Apply(st2, d);
    assert Legal(Apply(st, a), [b, d]);
  }

  // --------------------------------------------------- the loops over pairs

  // A listing of the entries under the prefix.
  ghost predicate Lists(list: seq<(Key, Pair)>, pairs: Pairs) {
    && (forall i :: 0 <= i < |list| ==> list[i].0 in pairs && pairs[list[i].0] == list[i].1)
    && (forall k :: k in pairs ==> exists i :: 0 <= i < |list| && list[i] == (k, pairs[k]))
  }

  method FindLockPair(list: seq<(Key, Pair)>, ghost pairs: Pairs) returns (r: Pair)
    requires Lists(list, pairs)
    ensures r == FindLock(pairs)
  {
    for i := 0 to |list|
      invariant forall j :: 0 <= j < i ==> list[j].0 != LockKey
    {
      if list[i].0 == LockKey {
        return list[i].1;
      }
    }
    return Pair(Nil, None, FLAG_VALUE, 0);
  }

  class SemaphoreLock {
    var limit: int
    var holders: set<Session>

    constructor (lock: Lock)
      ensures limit == lock.limit && holders == lock.holders
    {
      limit, holders := lock.limit, lock.holders;
    }

    method PruneDeadHolders(list: seq<(Key, Pair)>, ghost pairs: Pairs)
      requires Lists(list, pairs)
      modifies this`holders
      ensures Lock(limit, holders) == Pruned(Lock(limit, old(holders)), pairs)
    {
      var alive: set<Session> := {};
      for i := 0 to |list|
        invariant alive == set j | 0 <= j < i && list[j].1.session.Some? :: list[j].1.session.value
      {
        if list[i].1.session.Some? {
          alive := alive + {list[i].1.session.value};
        }
      }
      assert alive == AliveSessions(pairs);
      var rest := holders;
      while rest != {}
        invariant rest <= old(holders)
        invariant holders == old(holders) * alive + rest
        decreases rest
      {
        var holder :| holder in rest;
        rest := rest - {holder};
        if holder !in alive {
          holders := holders - {holder};
        }
      }
    }
  }
}
