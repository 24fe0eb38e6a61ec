/**
 * What Acquire, Release and Destroy achieve when nobody interferes
 * (hashicorp/consul, api/semaphore.go).
 *
 * Semaphore proves that nothing goes wrong, whatever the interleaving. Here each
 * call runs alone, with current reads and replies that arrive, and the entries
 * under the prefix are given exactly, but for their indices.
 */
module SemaphoreRuns {
  import opened Common
  import opened Semaphore

  // The entries without their indices.
  function Plain(pairs: Pairs): Pairs {
    map k | k in pairs :: pairs[k].(modifyIndex := 0)
  }

  function LockPair(lock: Lock): Pair {
    Pair(Encoded(lock), None, 0xe0f69a2baa414de0, 0)
  }

  function Contender(s: Session): Pair {
    Pair(Opaque, Some(s), 0xe0f69a2baa414de0, 0)
  }

  lemma OneMore(st: State, a: Step, rest: seq<Step>)
    requires Enabled(st, a) && Legal(Apply(st, a), rest)
    ensures Legal(st, [a] + rest) && After(st, [a] + rest) == After(Apply(st, a), rest)
  {
    hide Enabled, Apply;
    assert ([a] + rest)[1..] == rest;
  }

  // ----------------------------------------------------------------- Acquire

  // The client holds a slot. Stored are its contender entry and the lock, with
  // the holders that are alive and itself; nothing else has changed.
  ghost predicate Acquired(st: State, last: State, c: ClientId, s: Session)
    requires st.history != [] && c in st.clients
  {
    var cl, pairs := st.clients[c], st.Now().pairs;
    var others := if HasLock(st) then StoredLock(st).holders * (AliveSessions(pairs) + {s}) else {};
    && last.history != []
    && Plain(last.Now().pairs) ==
       Plain(pairs)[ContenderKey(s) := Contender(s)][LockKey := LockPair(Lock(cl.limit, others + {s}))]
    && last.clients == st.clients[c := cl.(isHeld := true, lockSession := Some(s), pc := Idle)]
  }

  /**
   * What an undisturbed Acquire achieves when there is room.
   */
  lemma AcquireStores(st: State, c: ClientId, s: Session)
    requires Inv(st) && Enabled(st, StartAcquire(c, s)) && (st.clients[c].configured ==> s in st.sessions)
    requires Room(st, c, s)
    ensures var steps := Contending(c, s, |st.history|);
            Legal(st, steps) && Enabled(After(st, steps), CasLock(c, Received)) &&
            Acquired(st, Apply(After(st, steps), CasLock(c, Received)), c, s)
  {
    assert c in st.clients;
    hide Apply, Enabled, Inv, Room, Legal, After, Acquired, Waiting;
    Contended(st, c, s);
    FromWaiting(st, Apply(Apply(st, StartAcquire(c, s)), MakeContender(c)), c, s);
    ThreeSteps(st, StartAcquire(c, s), MakeContender(c), ReadPrefix(c, |st.history|));
  }

  // The client contends, and its listing leads to the new lock.
  ghost predicate Waiting(st: State, st2: State, c: ClientId, s: Session)
    requires st.history != [] && c in st.clients
  {
    var cl := st.clients[c];
    var others := if HasLock(st) then StoredLock(st).holders * (AliveSessions(st.Now().pairs) + {s}) else {};
    && Inv(st2) && |st2.history| == |st.history| + 1 && FreeSlot(cl.limit, st2.Now())
    && st2.clients == st.clients[c := cl.(lockSession := Some(s), pc := AcquireWait(s))]
    && Plain(st2.Now().pairs) == Plain(st.Now().pairs)[ContenderKey(s) := Contender(s)]
    && NewLock(cl.limit, s, st2.Now()) == Lock(cl.limit, others + {s})
  }

  lemma FromWaiting(st: State, st2: State, c: ClientId, s: Session)
    requires st.history != [] && c in st.clients && Waiting(st, st2, c, s)
    ensures var read := ReadPrefix(c, |st.history|);
            Enabled(st2, read) && Enabled(Apply(st2, read), CasLock(c, Received)) &&
            Acquired(st, Apply(Apply(st2, read), CasLock(c, Received)), c, s)
  {
    hide Apply, Enabled, Inv, FreeSlot, Acquired, NewLock, Plain, AliveSessions, LockPair, Contender, HasLock;
    StoresNow(st2, c, s);
    AcquiredNow(st, st2, Apply(Apply(st2, ReadPrefix(c, |st.history|)), CasLock(c, Received)), c, s);
  }

  lemma AcquiredNow(st: State, st2: State, last: State, c: ClientId, s: Session)
    requires st.history != [] && c in st.clients && st2.history != [] && last.history != []
    requires var cl := st.clients[c];
             var others := if HasLock(st) then StoredLock(st).holders * (AliveSessions(st.Now().pairs) + {s}) else {};
             && st2.clients == st.clients[c := cl.(lockSession := Some(s), pc := AcquireWait(s))]
             && Plain(st2.Now().pairs) == Plain(st.Now().pairs)[ContenderKey(s) := Contender(s)]
             && NewLock(cl.limit, s, st2.Now()) == Lock(cl.limit, others + {s})
             && Plain(last.Now().pairs) ==
                Plain(st2.Now().pairs)[LockKey := LockPair(NewLock(cl.limit, s, st2.Now()))]
             && last.clients == st2.clients[c := st2.clients[c].(isHeld := true, pc := Idle)]
    ensures Acquired(st, last, c, s)
  {
    hide NewLock, AliveSessions, Plain, LockPair, Contender, HasLock;
  }

  // The first two steps, and the lock that a listing behind them leads to.
  lemma Contended(st: State, c: ClientId, s: Session)
    requires Inv(st) && Enabled(st, StartAcquire(c, s)) && (st.clients[c].configured ==> s in st.sessions)
    requires Room(st, c, s)
    ensures var st1 := Apply(st, StartAcquire(c, s));
            Enabled(st1, MakeContender(c)) &&
            Waiting(st, Apply(st1, MakeContender(c)), c, s)
  {
    assert c in st.clients;
    hide Apply, Enabled, Inv, Room, FreeSlot, HasLock, AliveSessions, Plain, Contender, NewLock;
    Contends(st, c, s);
    ContendSteps(st, c, s);
    ContenderOnly(st, c, s);
    AcquirePairs(st, s, st.clients[c].limit);
  }

  // Nobody else's state changes on the way.
  lemma ContenderOnly(st: State, c: ClientId, s: Session)
    requires Enabled(st, StartAcquire(c, s)) && (st.clients[c].configured ==> s in st.sessions)
    ensures var st1 := Apply(st, StartAcquire(c, s));
            Enabled(st1, MakeContender(c)) &&
            Apply(st1, MakeContender(c)).clients ==
            st.clients[c := st.clients[c].(lockSession := Some(s), pc := AcquireWait(s))]
  {
    hide Put;
  }

  // The lock that Acquire writes on a listing with a free slot.
  function NewLock(limit: int, s: Session, store: Store): Lock {
    var others := if LockKey in store.pairs && store.pairs[LockKey].value.Encoded?
                  then store.pairs[LockKey].value.lock.holders * AliveSessions(store.pairs) else {};
    Lock(limit, others + {s})
  }

  // From a current listing with a free slot to the new lock.
  lemma StoresNow(st: State, c: ClientId, s: Session)
    requires Inv(st) && c in st.clients && st.clients[c].pc == AcquireWait(s)
    requires FreeSlot(st.clients[c].limit, st.Now())
    ensures var read := ReadPrefix(c, |st.history| - 1);
            Enabled(st, read) && Enabled(Apply(st, read), CasLock(c, Received)) &&
            var last := Apply(Apply(st, read), CasLock(c, Received));
            && last.history != []
            && Plain(last.Now().pairs) ==
               Plain(st.Now().pairs)[LockKey := LockPair(NewLock(st.clients[c].limit, s, st.Now()))]
            && last.clients == st.clients[c := st.clients[c].(isHeld := true, pc := Idle)]
  {
    assert StoreOk(st.Now()) && ClientOk(st.history, c, st.clients[c]);
    DecidesBySlot(st.clients[c].limit, s, st.Now());
    NewLockIs(st.clients[c].limit, s, st.Now());
    ReadsNow(st, c, s);
    hide AcquireDecision, FreeSlot, StoreOk, ClientOk, Inv, NewLock;
    Swaps(WithPc(st, c, AcquireCas(s, st.Now())), c, s);
  }

  lemma NewLockIs(limit: int, s: Session, store: Store)
    requires StoreOk(store) && limit > 0 && FreeSlot(limit, store)
    ensures var d := AcquireDecision(limit, s, store.pairs);
            d.TryLock? && d.newLock.(modifyIndex := 0) == LockPair(NewLock(limit, s, store))
  {
  }

  lemma Swaps(st: State, c: ClientId, s: Session)
    requires st.history != [] && c in st.clients && st.clients[c].pc == AcquireCas(s, st.Now())
    requires var d := AcquireDecision(st.clients[c].limit, s, st.Now().pairs);
             d.TryLock? && CasSucceeds(st.Now().pairs, d.newLock.modifyIndex)
    ensures Enabled(st, CasLock(c, Received))
    ensures var last, d := Apply(st, CasLock(c, Received)), AcquireDecision(st.clients[c].limit, s, st.Now().pairs);
            && last.history != []
            && Plain(last.Now().pairs) == Plain(st.Now().pairs)[LockKey := d.newLock.(modifyIndex := 0)]
            && last.clients == st.clients[c := st.clients[c].(isHeld := true, pc := Idle)]
  {
    hide AcquireDecision, CasSucceeds;
  }

  // The listing behind the contender entry, and the lock that is made from it.
  lemma AcquirePairs(st: State, s: Session, limit: int)
    requires Inv(st)
    ensures var next := Put(st.Now(), ContenderKey(s), Pair(Opaque, Some(s), FLAG_VALUE, 0));
            var alive := AliveSessions(st.Now().pairs) + {s};
            var others := if HasLock(st) then StoredLock(st).holders * alive else {};
            && Plain(next.pairs) == Plain(st.Now().pairs)[ContenderKey(s) := Contender(s)]
            && NewLock(limit, s, next) == Lock(limit, others + {s})
  {
    assert StoreOk(st.Now());
    ContenderAdds(st.Now(), s);
    hide AliveSessions, StoreOk, Inv;
  }

  /**
   * Without a free slot the client waits where it is, if the limits agree, and
   * gives up if they do not. Nothing is written.
   */
  lemma WaitsOrGivesUp(st: State, c: ClientId, s: Session)
    requires Inv(st) && c in st.clients && st.clients[c].pc == AcquireWait(s)
    requires !FreeSlot(st.clients[c].limit, st.Now())
    ensures var read := ReadPrefix(c, |st.history| - 1);
            Enabled(st, read) && HasLock(st) &&
            Apply(st, read) == if StoredLock(st).limit == st.clients[c].limit then st else WithPc(st, c, Idle)
  {
    assert StoreOk(st.Now()) && ClientOk(st.history, c, st.clients[c]);
    hide Inv, StoreOk, ClientOk, Apply, Enabled, HasLock, FreeSlot;
    WaitsOr(st, c, s);
  }

  lemma WaitsOr(st: State, c: ClientId, s: Session)
    requires st.history != [] && StoreOk(st.Now())
    requires c in st.clients && st.clients[c].pc == AcquireWait(s) && ClientOk(st.history, c, st.clients[c])
    requires !FreeSlot(st.clients[c].limit, st.Now())
    ensures var read := ReadPrefix(c, |st.history| - 1);
            Enabled(st, read) && HasLock(st) &&
            Apply(st, read) == if StoredLock(st).limit == st.clients[c].limit then st else WithPc(st, c, Idle)
  {
    var cl := st.clients[c];
    assert st.clients[c := cl] == st.clients;
    hide StoreOk, ClientOk;
  }

  // A compare-and-set that comes too late writes nothing and is tried again from
  // the read.
  lemma RefusedRetries(st: State, c: ClientId)
    requires st.history != [] && c in st.clients
    ensures var cl := st.clients[c];
            cl.pc.AcquireCas? && AcquireDecision(cl.limit, cl.pc.session, cl.pc.seen.pairs).TryLock? &&
            !CasSucceeds(st.Now().pairs, FindLock(cl.pc.seen.pairs).modifyIndex) ==>
              Apply(st, CasLock(c, Received)) == WithPc(st, c, AcquireWait(cl.pc.session))
    ensures var cl := st.clients[c];
            cl.pc.ReleaseCas? && LockKey in cl.pc.seen.pairs &&
            ReleaseDecision(cl.limit, cl.pc.session, cl.pc.seen.pairs).TryUnlock? &&
            !CasSucceeds(st.Now().pairs, cl.pc.seen.pairs[LockKey].modifyIndex) ==>
              Apply(st, CasUnlock(c, Received)) == WithPc(st, c, ReleaseRead(cl.pc.session))
  {
  }

  // ----------------------------------------------------------------- Release

  predicate Listed(st: State, s: Session) {
    HasLock(st) && s in StoredLock(st).holders
  }

  // The calls of a Release with current reads.
  ghost function Releasing(st: State, c: ClientId, s: Session): seq<Step>
    requires st.history != []
  {
    [StartRelease(c), ReadLock(c, |st.history| - 1)] +
    (if Listed(st, s) then [CasUnlock(c, Received)] else []) + [DeleteContender(c)]
  }

  // The session is gone from the holders, if it was there, and so is its
  // contender entry. The other holders, the limit, and every other entry and
  // client are as they were; the client is idle and holds nothing.
  ghost predicate Released(st: State, last: State, c: ClientId, s: Session)
    requires st.history != [] && c in st.clients
  {
    var pairs := Plain(st.Now().pairs);
    var kept := if Listed(st, s)
                then pairs[LockKey := LockPair(Lock(StoredLock(st).limit, StoredLock(st).holders - {s}))] else pairs;
    && last.history != [] && Plain(last.Now().pairs) == kept - {ContenderKey(s)}
    && last.clients == st.clients[c := st.clients[c].(isHeld := false, lockSession := None, pc := Idle)]
    && last.sessions == st.sessions
  }

  /**
   * An undisturbed Release, of a slot that is alive or lost.
   */
  lemma ReleaseExactly(st: State, c: ClientId)
    requires Inv(st) && c in st.clients && st.clients[c].isHeld
    ensures st.clients[c].lockSession.Some? && st.history != []
    ensures var s := st.clients[c].lockSession.value;
            Legal(st, Releasing(st, c, s)) && Released(st, After(st, Releasing(st, c, s)), c, s)
  {
    assert ClientOk(st.history, c, st.clients[c]) && StoreOk(st.Now());
    hide Inv, ClientOk, Legal, After, StoreOk, Released, Reading, Apply, Enabled, Listed;
    var s := st.clients[c].lockSession.value;
    ReadsToRelease(st, c, s);
    if Listed(st, s) { ReleaseListed(st, c, s); } else { ReleaseUnlisted(st, c, s); }
  }

  lemma ReadsToRelease(st: State, c: ClientId, s: Session)
    requires st.history != [] && c in st.clients && st.clients[c].isHeld && st.clients[c].pc.Idle?
    requires st.clients[c].lockSession == Some(s) && StoreOk(st.Now())
    ensures Enabled(st, StartRelease(c)) && Reading(st, Apply(st, StartRelease(c)), c, s)
  {
    hide StoreOk;
    ReleaseStarts(st, c, s);
    ReleaseReads(Apply(st, StartRelease(c)), c, s);
    hide Apply, Enabled, HasLock;
  }

  lemma ReleaseListed(st: State, c: ClientId, s: Session)
    requires st.history != [] && c in st.clients && Listed(st, s) && StoreOk(st.Now())
    requires Enabled(st, StartRelease(c)) && Reading(st, Apply(st, StartRelease(c)), c, s)
    ensures Legal(st, Releasing(st, c, s)) && Released(st, After(st, Releasing(st, c, s)), c, s)
  {
    hide Legal, After, Apply, Enabled, StoreOk, Plain, LockPair;
    var start, read, cas, delete := StartRelease(c), ReadLock(c, |st.history| - 1), CasUnlock(c, Received),
                                    DeleteContender(c);
    var st2 := Apply(Apply(st, start), read);
    Unlocks(st2, c, s);
    Deletes(Apply(st2, cas), c, s);
    NoMore(Apply(st2, cas), delete);
    OneMore(st2, cas, [delete]);
    TwoMore(st, start, read, [cas] + [delete]);
    assert Releasing(st, c, s) == [start, read] + ([cas] + [delete]);
    var last := Apply(Apply(st2, cas), delete);
    hide StoredLock;
    assert Released(st, last, c, s);
  }

  lemma ReleaseUnlisted(st: State, c: ClientId, s: Session)
    requires st.history != [] && c in st.clients && !Listed(st, s)
    requires Enabled(st, StartRelease(c)) && Reading(st, Apply(st, StartRelease(c)), c, s)
    ensures Legal(st, Releasing(st, c, s)) && Released(st, After(st, Releasing(st, c, s)), c, s)
  {
    hide Legal, After, Apply, Enabled, Plain, LockPair, HasLock;
    var start, read, delete := StartRelease(c), ReadLock(c, |st.history| - 1), DeleteContender(c);
    var st2 := Apply(Apply(st, start), read);
    Deletes(st2, c, s);
    NoMore(st2, delete);
    TwoMore(st, start, read, [delete]);
    assert Releasing(st, c, s) == [start, read] + [delete];
  }

  // Release has read the lock, and nothing is written yet.
  ghost predicate Reading(st: State, st1: State, c: ClientId, s: Session)
    requires st.history != [] && c in st.clients
  {
    var read := ReadLock(c, |st.history| - 1);
    Enabled(st1, read) &&
    Apply(st1, read) ==
    st.(clients := st.clients[c := st.clients[c].(isHeld := false, lockSession := None,
                                                  pc := if Listed(st, s) then ReleaseCas(s, st.Now())
                                                        else ReleaseDelete(s))])
  }

  lemma NoMore(st: State, a: Step)
    requires Enabled(st, a)
    ensures Legal(st, [a]) && After(st, [a]) == Apply(st, a)
  {
    hide Enabled, Apply;
    assert [a][1..] == [] && Legal(Apply(st, a), []);
  }

  lemma TwoMore(st: State, a: Step, b: Step, rest: seq<Step>)
    requires Enabled(st, a) && Enabled(Apply(st, a), b) && Legal(Apply(Apply(st, a), b), rest)
    ensures Legal(st, [a, b] + rest) && After(st, [a, b] + rest) == After(Apply(Apply(st, a), b), rest)
  {
    hide Enabled, Apply, Legal, After;
    OneMore(Apply(st, a), b, rest);
    OneMore(st, a, [b] + rest);
    assert [a, b] + rest == [a] + ([b] + rest);
  }

  lemma ReleaseStarts(st: State, c: ClientId, s: Session)
    requires st.history != [] && c in st.clients && st.clients[c].isHeld && st.clients[c].pc.Idle?
    requires st.clients[c].lockSession == Some(s)
    ensures Enabled(st, StartRelease(c))
    ensures Apply(st, StartRelease(c)) ==
            st.(clients := st.clients[c := st.clients[c].(isHeld := false, lockSession := None, pc := ReleaseRead(s))])
  {
  }

  // What Release decides on a current read.
  lemma ReleaseReads(st: State, c: ClientId, s: Session)
    requires st.history != [] && StoreOk(st.Now()) && c in st.clients && st.clients[c].pc == ReleaseRead(s)
    ensures var read := ReadLock(c, |st.history| - 1);
            Enabled(st, read) &&
            Apply(st, read) ==
            WithPc(st, c, if Listed(st, s) then ReleaseCas(s, st.Now()) else ReleaseDelete(s))
  {
  }

  lemma Unlocks(st: State, c: ClientId, s: Session)
    requires st.history != [] && StoreOk(st.Now()) && Listed(st, s)
    requires c in st.clients && st.clients[c].pc == ReleaseCas(s, st.Now())
    ensures Enabled(st, CasUnlock(c, Received))
    ensures var next := Apply(st, CasUnlock(c, Received));
            && next.history != []
            && Plain(next.Now().pairs) ==
               Plain(st.Now().pairs)[LockKey := LockPair(Lock(StoredLock(st).limit, StoredLock(st).holders - {s}))]
            && next.clients == st.clients[c := st.clients[c].(pc := ReleaseDelete(s))]
            && next.sessions == st.sessions
  {
  }

  lemma Deletes(st: State, c: ClientId, s: Session)
    requires st.history != [] && c in st.clients && st.clients[c].pc == ReleaseDelete(s)
    ensures Enabled(st, DeleteContender(c))
    ensures var last := Apply(st, DeleteContender(c));
            && last.history != [] && Plain(last.Now().pairs) == Plain(st.Now().pairs) - {ContenderKey(s)}
            && last.clients == st.clients[c := st.clients[c].(pc := Idle)] && last.sessions == st.sessions
  {
  }

  /**
   * And so a slot that is released is free: whoever has the same limit has room.
   */
  lemma ReleaseMakesRoom(st: State, c: ClientId, d: ClientId, s: Session)
    requires Inv(st) && LiveHolder(st, c)
    requires d in st.clients && st.clients[d].limit == st.clients[c].limit
    ensures st.clients[c].lockSession.Some? && Legal(st, Releasing(st, c, st.clients[c].lockSession.value))
    ensures var last := After(st, Releasing(st, c, st.clients[c].lockSession.value));
            last.history != [] && d in last.clients && Room(last, d, s)
  {
    var held := st.clients[c].lockSession.value;
    ReleaseExactly(st, c);
    assert SlotSafe(st.history, held, st.clients[c].limit) && StoreOk(st.Now());
    var last := After(st, Releasing(st, c, held));
    hide Inv, Legal, After, Apply, Enabled, StoreOk, SlotSafe, AliveSessions;
    assert Listed(st, held);
    LockOfPlain(last, Lock(StoredLock(st).limit, StoredLock(st).holders - {held}));
    var kept := StoredLock(last).holders * (AliveSessions(last.Now().pairs) + {s});
    Fewer(kept, StoredLock(last).holders);
  }

  lemma LockOfPlain(st: State, lock: Lock)
    requires st.history != [] && LockKey in Plain(st.Now().pairs) && Plain(st.Now().pairs)[LockKey] == LockPair(lock)
    ensures HasLock(st) && StoredLock(st) == lock
  {
  }

  lemma {:induction false} Fewer<T>(a: set<T>, b: set<T>)
    requires a <= b
    ensures |a| <= |b|
    decreases b
  {
    if x :| x in a { Fewer(a - {x}, b - {x}); }
  }

  // ----------------------------------------------------------------- Destroy

  /**
   * An undisturbed Destroy with a current listing removes the lock if and only
   * if there is one and none of its holders is alive; otherwise it changes
   * nothing. No other entry is touched.
   */
  lemma DestroyExactly(st: State, c: ClientId)
    requires Inv(st) && c in st.clients && st.clients[c].pc.Idle? && !st.clients[c].isHeld
    ensures st.history != [] && Enabled(st, ReadForDestroy(c, |st.history| - 1))
    ensures var read := Apply(st, ReadForDestroy(c, |st.history| - 1));
            && (Enabled(read, DeleteLock(c)) <==>
                HasLock(st) && StoredLock(st).holders * AliveSessions(st.Now().pairs) == {})
            && (!Enabled(read, DeleteLock(c)) ==> read == st)
            && (Enabled(read, DeleteLock(c)) ==>
                  var last := Apply(read, DeleteLock(c));
                  && last.history != [] && Plain(last.Now().pairs) == Plain(st.Now().pairs) - {LockKey}
                  && last.clients == st.clients && last.sessions == st.sessions)
  {
    assert StoreOk(st.Now());
    hide Inv, StoreOk, Apply, Enabled, HasLock, AliveSessions, Plain;
    Destroys(st, c);
  }

  lemma Destroys(st: State, c: ClientId)
    requires st.history != [] && StoreOk(st.Now())
    requires c in st.clients && st.clients[c].pc.Idle? && !st.clients[c].isHeld
    ensures Enabled(st, ReadForDestroy(c, |st.history| - 1))
    ensures var read := Apply(st, ReadForDestroy(c, |st.history| - 1));
            && (Enabled(read, DeleteLock(c)) <==>
                HasLock(st) && StoredLock(st).holders * AliveSessions(st.Now().pairs) == {})
            && (!Enabled(read, DeleteLock(c)) ==> read == st)
            && (Enabled(read, DeleteLock(c)) ==>
                  var last := Apply(read, DeleteLock(c));
                  && last.history != [] && Plain(last.Now().pairs) == Plain(st.Now().pairs) - {LockKey}
                  && last.clients == st.clients && last.sessions == st.sessions)
  {
    hide StoreOk;
    DecidesToDelete(st, c);
    ReadsForDestroy(st, c);
    hide Apply, Enabled, DestroyDecision, HasLock, AliveSessions, Plain;
    if DestroyDecision(st.clients[c].limit, st.Now().pairs).TryDelete? {
      DeletesLock(WithPc(st, c, DestroyCas(st.Now())), c);
      assert st.clients[c := st.clients[c].(pc := Idle)] == st.clients;
    }
  }

  lemma ReadsForDestroy(st: State, c: ClientId)
    requires st.history != [] && c in st.clients && st.clients[c].pc.Idle? && !st.clients[c].isHeld
    ensures var read := ReadForDestroy(c, |st.history| - 1);
            && Enabled(st, read) && !Enabled(st, DeleteLock(c))
            && Apply(st, read) == (if DestroyDecision(st.clients[c].limit, st.Now().pairs).TryDelete?
                                   then WithPc(st, c, DestroyCas(st.Now())) else st)
  {
    hide DestroyDecision;
  }

  lemma DecidesToDelete(st: State, c: ClientId)
    requires st.history != [] && StoreOk(st.Now()) && c in st.clients
    ensures var d := DestroyDecision(st.clients[c].limit, st.Now().pairs);
            && (d.TryDelete? <==> HasLock(st) && StoredLock(st).holders * AliveSessions(st.Now().pairs) == {})
            && (d.TryDelete? ==> d.modifyIndex > 0 && CasSucceeds(st.Now().pairs, d.modifyIndex))
  {
  }

  lemma DeletesLock(st: State, c: ClientId)
    requires st.history != [] && c in st.clients && st.clients[c].pc == DestroyCas(st.Now())
    requires var d := DestroyDecision(st.clients[c].limit, st.Now().pairs);
             d.TryDelete? && d.modifyIndex > 0 && CasSucceeds(st.Now().pairs, d.modifyIndex)
    ensures Enabled(st, DeleteLock(c))
    ensures var last := Apply(st, DeleteLock(c));
            && last.history != [] && Plain(last.Now().pairs) == Plain(st.Now().pairs) - {LockKey}
            && last.clients == st.clients[c := st.clients[c].(pc := Idle)] && last.sessions == st.sessions
  {
    hide DestroyDecision, CasSucceeds;
  }

  // ------------------------------------------------------- a session that dies

  /**
   * When a session dies it owns nothing any more, and everything else stays: its
   * entries go, or are let go of. So its slot is pruned by the next Acquire.
   */
  lemma DeathExactly(st: State, s: Session, deletes: bool)
    requires st.history != [] && Enabled(st, Invalidate(s, deletes))
    ensures var last, pairs := Apply(st, Invalidate(s, deletes)), st.Now().pairs;
            && last.history != [] && AliveSessions(last.Now().pairs) == AliveSessions(pairs) - {s}
            && (forall k :: k in pairs && pairs[k].session != Some(s) ==>
                  k in last.Now().pairs && last.Now().pairs[k] == pairs[k])
            && (forall k :: k in last.Now().pairs ==> k in pairs)
            && (deletes ==> forall k :: k in pairs && pairs[k].session == Some(s) ==> k !in last.Now().pairs)
            && last.clients == st.clients && last.sessions == st.sessions - {s}
  {
    var last, pairs := Apply(st, Invalidate(s, deletes)), st.Now().pairs;
    forall x | x in AliveSessions(pairs) - {s} ensures x in AliveSessions(last.Now().pairs) {
      var k :| k in pairs && pairs[k].session == Some(x);
      assert last.Now().pairs[k] == pairs[k];
    }
  }
}
