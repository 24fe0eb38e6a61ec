/**
 * Duplicate suppression (singleflight.Do in miekg/dns, singleinflight.go) as a
 * state machine: each step is one critical section, the function's return, or
 * a caller's return, and the steps of any number of callers interleave freely.
 */
module Singleflight {
  import opened Common

  type Key = string
  type Caller = nat

  // A call in flight or finished; `dups` counts those who joined it.
  datatype Call<V> = Call(key: Key, leader: Caller, result: Option<V>, dups: nat)

  // Where a caller is inside Do.
  datatype Phase<V> =
    | Running(call: nat)  // its function has not returned
    | Finished(call: nat) // it has; the call is still in the map
    | Deleted(call: nat)  // out of the map, about to look at dups
    | Waiting(call: nat)  // joined, waits for the leader's function
    | Returned(call: nat, val: V, shared: bool)

  datatype State<V> = State(calls: seq<Call<V>>, m: map<Key, nat>,
                            callers: map<Caller, Phase<V>>, asked: map<Caller, Key>)

  datatype Step<V> = Enter(id: Caller, key: Key) | Finish(id: Caller, val: V) | Delete(id: Caller) | Return(id: Caller)

  function Init<V>(): State<V> {
    State([], map[], map[], map[])
  }

  // Whatever the map and the callers refer to is there, which every step keeps.
  predicate InBounds<V>(s: State<V>) {
    && (forall id <- s.callers :: s.callers[id].call < |s.calls|)
    && (forall k <- s.m :: s.m[k] < |s.calls|)
  }

  predicate Enabled<V>(s: State<V>, step: Step<V>)
    requires InBounds(s)
  {
    match step
    case Enter(id, _) => id !in s.callers
    case Finish(id, _) => id in s.callers && s.callers[id].Running?
    case Delete(id) => id in s.callers && s.callers[id].Finished?
    case Return(id) =>
      && id in s.callers && (s.callers[id].Deleted? || s.callers[id].Waiting?)
      && s.calls[s.callers[id].call].result.Some?
  }

  function Apply<V>(s: State<V>, step: Step<V>): State<V>
    requires InBounds(s) && Enabled(s, step)
  {
    match step
    case Enter(id, key) =>
      if key in s.m then
        var c := s.m[key];
        s.(calls := s.calls[c := s.calls[c].(dups := s.calls[c].dups + 1)],
           callers := s.callers[id := Waiting(c)], asked := s.asked[id := key])
      else
        var c := |s.calls|;
        s.(calls := s.calls + [Call(key, id, None, 0)], m := s.m[key := c],
           callers := s.callers[id := Running(c)], asked := s.asked[id := key])
    case Finish(id, val) =>
      var c := s.callers[id].call;
      s.(calls := s.calls[c := s.calls[c].(result := Some(val))], callers := s.callers[id := Finished(c)])
    case Delete(id) =>
      var c := s.callers[id].call;
      s.(m := s.m - {s.calls[c].key}, callers := s.callers[id := Deleted(c)])
    case Return(id) =>
      var c := s.callers[id].call;
      var shared := s.callers[id].Waiting? || s.calls[c].dups > 0;
      s.(callers := s.callers[id := Returned(c, s.calls[c].result.value, shared)])
  }

  // -------------------------------------------------------------- invariant

  // Everyone else who is in this call or has returned from it.
  function Joined<V>(s: State<V>, c: nat): set<Caller>
    requires c < |s.calls|
  {
    set id | id in s.callers && s.callers[id].call == c && id != s.calls[c].leader
  }

  predicate Leads(p: Phase) { p.Running? || p.Finished? || p.Deleted? }

  predicate CallOk<V>(s: State<V>, c: nat)
    requires c < |s.calls|
  {
    var call := s.calls[c];
    && call.leader in s.callers && s.callers[call.leader].call == c && !s.callers[call.leader].Waiting?
    && call.dups == |Joined(s, c)|
    && var p := s.callers[call.leader];
       && (call.result.None? <==> p.Running?)
       && (p.Running? || p.Finished? <==> call.key in s.m && s.m[call.key] == c)
       && (p.Returned? ==> p.shared == (call.dups > 0))
  }

  ghost predicate CallerOk<V>(s: State<V>, id: Caller)
    requires id in s.callers
  {
    var p := s.callers[id];
    && p.call < |s.calls| && id in s.asked && s.asked[id] == s.calls[p.call].key
    && (Leads(p) ==> s.calls[p.call].leader == id)
    && (p.Waiting? ==> s.calls[p.call].leader != id)
    && (p.Returned? ==> s.calls[p.call].result == Some(p.val))
    && (p.Returned? && s.calls[p.call].leader != id ==> p.shared)
  }

  ghost predicate Inv<V>(s: State<V>) {
    && (forall c :: 0 <= c < |s.calls| ==> CallOk(s, c))
    && (forall id <- s.callers :: CallerOk(s, id))
    && InBounds(s) && (forall k <- s.m :: s.calls[s.m[k]].key == k)
  }

  lemma InitInv<V>()
    ensures Inv(Init<V>())
  {
  }

  lemma JoinedSame<V>(s: State<V>, s': State<V>, c: nat)
    requires c < |s.calls| && c < |s'.calls| && s.calls[c].leader == s'.calls[c].leader
    requires s.callers.Keys == s'.callers.Keys
    requires forall id <- s.callers :: s.callers[id].call == s'.callers[id].call
    ensures Joined(s, c) == Joined(s', c)
  {
  }

  lemma JoinKeepsInv<V>(s: State<V>, id: Caller, key: Key)
    requires Inv(s) && Enabled(s, Enter(id, key)) && key in s.m
    ensures Inv(Apply(s, Enter(id, key)))
  {
    hide Joined;
    var s' := Apply(s, Enter(id, key));
    assert CallOk(s, s.m[key]);
    forall c | 0 <= c < |s'.calls| ensures CallOk(s', c) {
      assert CallOk(s, c);
      JoinCounts(s, id, key, c);
    }
    forall other <- s'.callers ensures CallerOk(s', other) {
      assert other != id ==> CallerOk(s, other);
    }
  }

  lemma JoinCounts<V>(s: State<V>, id: Caller, key: Key, c: nat)
    requires InBounds(s) && Enabled(s, Enter(id, key)) && key in s.m && c < |s.calls| && s.calls[c].leader in s.callers
    ensures |Joined(Apply(s, Enter(id, key)), c)| == |Joined(s, c)| + if c == s.m[key] then 1 else 0
  {
    var s' := Apply(s, Enter(id, key));
    assert Joined(s', c) == if c == s.m[key] then Joined(s, c) + {id} else Joined(s, c);
  }

  lemma LeadKeepsInv<V>(s: State<V>, id: Caller, key: Key)
    requires Inv(s) && Enabled(s, Enter(id, key)) && key !in s.m
    ensures Inv(Apply(s, Enter(id, key)))
  {
    var s' := Apply(s, Enter(id, key));
    assert forall other <- s.callers :: CallerOk(s, other);
    forall c | 0 <= c < |s'.calls| ensures CallOk(s', c) {
      if c < |s.calls| {
        assert CallOk(s, c);
        assert Joined(s', c) == Joined(s, c);
      } else {
        assert Joined(s', c) == {};
      }
    }
    forall other <- s'.callers ensures CallerOk(s', other) {
      assert other != id ==> CallerOk(s, other);
    }
  }

  lemma FinishKeepsInv<V>(s: State<V>, id: Caller, val: V)
    requires Inv(s) && Enabled(s, Finish(id, val))
    ensures Inv(Apply(s, Finish(id, val)))
  {
    var s' := Apply(s, Finish(id, val));
    assert CallerOk(s, id);
    forall c | 0 <= c < |s'.calls| ensures CallOk(s', c) {
      assert CallOk(s, c);
      JoinedSame(s, s', c);
    }
    forall other <- s'.callers ensures CallerOk(s', other) {
      assert CallerOk(s, other);
      assert CallOk(s, s.callers[id].call);
    }
  }

  lemma DeleteKeepsInv<V>(s: State<V>, id: Caller)
    requires Inv(s) && Enabled(s, Delete(id))
    ensures Inv(Apply(s, Delete(id)))
  {
    var s' := Apply(s, Delete(id));
    assert CallerOk(s, id);
    assert CallOk(s, s.callers[id].call);
    forall c | 0 <= c < |s'.calls| ensures CallOk(s', c) {
      assert CallOk(s, c);
      JoinedSame(s, s', c);
    }
    forall other <- s'.callers ensures CallerOk(s', other) {
      assert CallerOk(s, other);
    }
  }

  lemma ReturnKeepsInv<V>(s: State<V>, id: Caller)
    requires Inv(s) && Enabled(s, Return(id))
    ensures Inv(Apply(s, Return(id)))
  {
    var s' := Apply(s, Return(id));
    assert CallerOk(s, id);
    forall c | 0 <= c < |s'.calls| ensures CallOk(s', c) {
      assert CallOk(s, c);
      JoinedSame(s, s', c);
    }
    forall other <- s'.callers ensures CallerOk(s', other) {
      assert CallerOk(s, other);
    }
  }

  // --------------------------------------------------------------------- runs

  lemma StepKeepsInv<V>(s: State<V>, step: Step<V>)
    requires Inv(s) && Enabled(s, step)
    ensures Inv(Apply(s, step))
  {
    match step {
      case Enter(id, key) =>
        if key in s.m { JoinKeepsInv(s, id, key); } else { LeadKeepsInv(s, id, key); }
      case Finish(id, val) => FinishKeepsInv(s, id, val);
      case Delete(id) => DeleteKeepsInv(s, id);
      case Return(id) => ReturnKeepsInv(s, id);
    }
  }

  // A step leaves nothing that refers to what is not there, whatever else holds.
  lemma StepInBounds<V>(s: State<V>, step: Step<V>)
    requires InBounds(s) && Enabled(s, step)
    ensures InBounds(Apply(s, step))
  {
  }

  predicate IsRun<V>(s: State<V>, steps: seq<Step<V>>)
    requires InBounds(s)
    decreases steps
  {
    steps == [] ||
    (Enabled(s, steps[0]) && (StepInBounds(s, steps[0]); IsRun(Apply(s, steps[0]), steps[1..])))
  }

  function After<V>(s: State<V>, steps: seq<Step<V>>): State<V>
    requires InBounds(s) && IsRun(s, steps)
    decreases steps
  {
    if steps == [] then s
    else
      StepInBounds(s, steps[0]);
      After(Apply(s, steps[0]), steps[1..])
  }

  lemma {:induction false} RunKeepsInv<V>(s: State<V>, steps: seq<Step<V>>)
    requires Inv(s) && IsRun(s, steps)
    ensures Inv(After(s, steps))
    decreases steps
  {
    if steps != [] {
      StepKeepsInv(s, steps[0]);
      RunKeepsInv(Apply(s, steps[0]), steps[1..]);
    }
  }

  // The key for which this caller's function runs.
  function RunsFor<V>(s: State<V>, id: Caller): Option<Key> {
    if id in s.callers && s.callers[id].Running? && s.callers[id].call < |s.calls|
    then Some(s.calls[s.callers[id].call].key) else None
  }

  /**
   * In every interleaving: no two functions run for one key at a time.
   */
  lemma OneRunsPerKey<V>(steps: seq<Step<V>>, a: Caller, b: Caller)
    requires IsRun(Init<V>(), steps)
    ensures var s := After(Init<V>(), steps);
            RunsFor(s, a).Some? && RunsFor(s, a) == RunsFor(s, b) ==> a == b
  {
    InitInv<V>();
    RunKeepsInv(Init<V>(), steps);
    var s := After(Init<V>(), steps);
    if a in s.callers && b in s.callers {
      assert CallerOk(s, a) && CallerOk(s, b);
      assert CallOk(s, s.callers[a].call) && CallOk(s, s.callers[b].call);
    }
  }

  /**
   * Whoever has returned has the result of the call it led or joined, which was
   * made for its own key; and it was told the result is shared exactly when
   * another caller entered the same call, whether or not that one has returned.
   */
  lemma ReturnsWhatWasShared<V>(steps: seq<Step<V>>, id: Caller)
    requires IsRun(Init<V>(), steps)
    requires id in After(Init<V>(), steps).callers && After(Init<V>(), steps).callers[id].Returned?
    ensures var s := After(Init<V>(), steps);
            var p := s.callers[id];
            && p.call < |s.calls| && s.calls[p.call].result == Some(p.val)
            && id in s.asked && s.calls[p.call].key == s.asked[id]
            && (p.shared <==> exists other :: other in s.callers && other != id && s.callers[other].call == p.call)
  {
    InitInv<V>();
    RunKeepsInv(Init<V>(), steps);
    var s := After(Init<V>(), steps);
    var c := s.callers[id].call;
    assert CallerOk(s, id) && CallOk(s, c);
    var joined := Joined(s, c);
    if s.calls[c].leader == id {
      if |joined| > 0 {
        var other :| other in joined;
      } else {
        assert joined == {};
        assert forall other <- s.callers :: s.callers[other].call == c && other != id ==> other in joined;
      }
    } else {
      assert s.calls[c].leader in s.callers;
    }
  }

  // The result of a finished call never changes, and no one can join it once it
  // has left the map: later steps leave result and count alone.
  lemma FinishedStays<V>(s: State<V>, step: Step<V>, c: nat)
    requires Inv(s) && Enabled(s, step) && c < |s.calls| && s.calls[c].result.Some?
    ensures var s' := Apply(s, step);
            && c < |s'.calls| && s'.calls[c].result == s.calls[c].result
            && (!(s.calls[c].key in s.m && s.m[s.calls[c].key] == c) ==> s'.calls[c].dups == s.calls[c].dups)
  {
    assert CallOk(s, c);
    match step
    case Enter(id, key) =>
    case Finish(id, val) =>
      assert CallerOk(s, id) && CallOk(s, s.callers[id].call);
    case Delete(id) =>
    case Return(id) =>
  }

  // ---------------------------------------------------------------- progress

  // Nobody is stuck: every caller inside Do has a next step, or waits for one whose
  // function is still running.
  lemma NextStep<V>(s: State<V>, id: Caller, val: V)
    requires Inv(s) && id in s.callers
    ensures match s.callers[id]
            case Running(_) => Enabled(s, Finish(id, val))
            case Finished(_) => Enabled(s, Delete(id))
            case Deleted(_) => Enabled(s, Return(id))
            case Waiting(c) => Enabled(s, Return(id)) <==> !Enabled(s, Finish(s.calls[c].leader, val))
            case Returned(_, _, _) => !Enabled(s, Return(id))
    ensures !Enabled(s, Enter(id, s.asked[id]))
  {
    assert CallerOk(s, id);
    assert CallOk(s, s.callers[id].call);
  }

  // The states of a caller whom nobody disturbs, behind those that are there.
  function With<V>(s: State<V>, id: Caller, key: Key, result: Option<V>, phase: Phase<V>, m: map<Key, nat>): State<V> {
    State(s.calls + [Call(key, id, result, 0)], m, s.callers[id := phase], s.asked[id := key])
  }

  lemma WithInBounds<V>(s: State<V>, id: Caller, key: Key, result: Option<V>, phase: Phase<V>, m: map<Key, nat>)
    requires InBounds(s) && phase.call == |s.calls| && (m == s.m || m == s.m[key := |s.calls|])
    ensures InBounds(With(s, id, key, result, phase, m))
  {
  }

  /**
   * A caller whom nobody disturbs runs the function itself if no call for its key is
   * in flight: it returns the function's value, not shared, and leaves everybody
   * else and the map as they were.
   */
  lemma AloneExactly<V>(s: State<V>, id: Caller, key: Key, val: V)
    requires InBounds(s) && id !in s.callers && key !in s.m
    ensures Enabled(s, Enter(id, key))
    ensures var s1 := Apply(s, Enter(id, key));
            InBounds(s1) && Enabled(s1, Finish(id, val)) &&
            var s2 := Apply(s1, Finish(id, val));
            InBounds(s2) && Enabled(s2, Delete(id)) &&
            var s3 := Apply(s2, Delete(id));
            InBounds(s3) && Enabled(s3, Return(id)) &&
            var last := Apply(s3, Return(id));
            && last.callers == s.callers[id := Returned(|s.calls|, val, false)] && last.m == s.m
            && last.calls == s.calls + [Call(key, id, Some(val), 0)]
  {
    var c, m := |s.calls|, s.m[key := |s.calls|];
    WithInBounds(s, id, key, None, Running(c), m);
    WithInBounds(s, id, key, Some(val), Finished(c), m);
    WithInBounds(s, id, key, Some(val), Deleted(c), s.m);
    hide InBounds;
    assert Apply(s, Enter(id, key)) == With(s, id, key, None, Running(c), m);
    assert m - {key} == s.m;
    AloneGoesOn(s, id, key, val);
  }

  lemma AloneGoesOn<V>(s: State<V>, id: Caller, key: Key, val: V)
    requires InBounds(s) && id !in s.callers && key !in s.m
    requires InBounds(With(s, id, key, None, Running(|s.calls|), s.m[key := |s.calls|]))
    requires InBounds(With(s, id, key, Some(val), Finished(|s.calls|), s.m[key := |s.calls|]))
    requires InBounds(With(s, id, key, Some(val), Deleted(|s.calls|), s.m))
    ensures var c := |s.calls|;
            var m := s.m[key := c];
            var s1, s2 := With(s, id, key, None, Running(c), m), With(s, id, key, Some(val), Finished(c), m);
            var s3, last := With(s, id, key, Some(val), Deleted(c), s.m),
                            With(s, id, key, Some(val), Returned(c, val, false), s.m);
            && Enabled(s1, Finish(id, val)) && Apply(s1, Finish(id, val)) == s2
            && Enabled(s2, Delete(id)) && Apply(s2, Delete(id)) == s3
            && Enabled(s3, Return(id)) && Apply(s3, Return(id)) == last
  {
    hide InBounds;
    var c := |s.calls|;
    assert s.m[key := c] - {key} == s.m;
    assert (s.calls + [Call(key, id, None, 0)])[c := Call(key, id, Some(val), 0)] ==
           s.calls + [Call(key, id, Some(val), 0)];
  }

  // One that finds a call in flight joins it, and when that call has its value it
  // returns it, shared.
  lemma JoinsExactly<V>(s: State<V>, id: Caller, key: Key)
    requires Inv(s) && id !in s.callers && key in s.m
    ensures Enabled(s, Enter(id, key)) && InBounds(Apply(s, Enter(id, key)))
    ensures var s1 := Apply(s, Enter(id, key));
            && s1.callers == s.callers[id := Waiting(s.m[key])] && s1.m == s.m
            && (Enabled(s1, Return(id)) <==> s.calls[s.m[key]].result.Some?)
            && (Enabled(s1, Return(id)) ==>
                  Apply(s1, Return(id)).callers[id] == Returned(s.m[key], s.calls[s.m[key]].result.value, true))
  {
    assert InBounds(s);
    hide Inv;
  }
}
