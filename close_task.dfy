/** The task the first `Close` of a session starts: it runs the session's close
    callbacks in registration order and then, for a session a manager created, deletes
    the session from that manager. */
module CloseTasks {
  import opened LinkTypes
  import opened Sessions
  import opened Channels
  import opened Managers

  /** The keys that the first `n` callbacks of `cbs` remove from channel `c`. */
  function EvictedKeys(cbs: seq<CloseCallback>, n: nat, c: object): set<Key>
    requires n <= |cbs|
  {
    if n == 0 then {} else EvictedKeys(cbs, n - 1, c) + Evicts(cbs[n - 1], c)
  }

  /** The key one callback removes from channel `c`, if it is a removal from `c`. */
  function Evicts(cb: CloseCallback, c: object): set<Key>
  {
    if cb.func.RemoveFromChannel? && cb.func.channel == c then {cb.func.key} else {}
  }

  /** The user functions that the first `n` callbacks of `cbs` call, in order. */
  function UserCalls(cbs: seq<CloseCallback>, n: nat): seq<nat>
    requires n <= |cbs|
  {
    if n == 0 then [] else UserCalls(cbs, n - 1) + Called(cbs[n - 1])
  }

  function Called(cb: CloseCallback): seq<nat>
  {
    if cb.func.UserFunc? then [cb.func.tag] else []
  }

  /** A key is removed from a channel exactly when one of the callbacks run is the
      removal of that key from that channel. */
  lemma {:induction false} EvictedKeysExact(cbs: seq<CloseCallback>, n: nat, c: object, k: Key)
    requires n <= |cbs|
    ensures k in EvictedKeys(cbs, n, c) <==>
      exists j :: 0 <= j < n && cbs[j].func == RemoveFromChannel(c, k)
  {
    if n > 0 {
      EvictedKeysExact(cbs, n - 1, c, k);
    }
  }

  /** A user function is called exactly when one of the callbacks run is that function. */
  lemma {:induction false} UserCallsExact(cbs: seq<CloseCallback>, n: nat, t: nat)
    requires n <= |cbs|
    ensures t in UserCalls(cbs, n) <==> exists j :: 0 <= j < n && cbs[j].func == UserFunc(t)
  {
    if n > 0 {
      UserCallsExact(cbs, n - 1, t);
    }
  }

  /** Each user callback is one call: there are as many calls as user callbacks run. */
  lemma {:induction false} UserCallsCount(cbs: seq<CloseCallback>, n: nat)
    requires n <= |cbs|
    ensures |UserCalls(cbs, n)| == |set j | 0 <= j < n && cbs[j].func.UserFunc?|
  {
    if n > 0 {
      UserCallsCount(cbs, n - 1);
      var before := set j | 0 <= j < n - 1 && cbs[j].func.UserFunc?;
      var now := set j | 0 <= j < n && cbs[j].func.UserFunc?;
      if cbs[n - 1].func.UserFunc? {
        assert now == before + {n - 1};
      } else {
        assert now == before;
      }
    }
  }

  /** The keys among `keys` under which `m` stores `s`. */
  function Departs(m: map<Key, Session>, keys: set<Key>, s: Session): set<Key>
  {
    set k | k in keys && k in m && m[k] == s
  }

  /** Dropping the entries of `s` under `a` and then under `b` drops its entries under
      both at once. */
  lemma DepartsTwice(m: map<Key, Session>, a: set<Key>, b: set<Key>, s: Session)
    ensures m - Departs(m, a, s) - Departs(m - Departs(m, a, s), b, s) == m - Departs(m, a + b, s)
  {
    var left := m - Departs(m, a, s) - Departs(m - Departs(m, a, s), b, s);
    var right := m - Departs(m, a + b, s);
    assert forall k :: k in left <==> k in right;
  }

  /** Runs one callback of the closing `session`, with the channel removal corrected: it
      deletes its key only while the key still stores `session`, so a session put under
      the key since then stays. A user function is recorded in `calls`. */
  method Fire(cb: CloseCallback, session: Session, ghost live: set<Session>, ghost world: set<Channel>,
              ghost objs: set<object>)
    returns (calls: seq<nat>)
    requires session in live && session.closed
    requires forall s :: s in live ==> s.Valid() && s.Repr <= objs
    requires forall c :: c in world ==> c.sessions.Values <= live
    requires cb.func.RemoveFromChannel? && cb.func.channel is Channel ==> cb.func.channel in world
    modifies world, objs
    ensures calls == Called(cb)
    ensures forall c :: c in world ==> c.sessions == old(c.sessions) - Departs(old(c.sessions), Evicts(cb, c), session)
    ensures forall s :: s in live ==>
      s.Valid() && s.Repr <= objs && s.State() == old(s.State()) && s.Callbacks == old(s.Callbacks)
  {
    calls := Called(cb);
    if cb.func.RemoveFromChannel? && cb.func.channel is Channel {
      var ch := cb.func.channel as Channel;
      var key := cb.func.key;
      if key in ch.sessions && ch.sessions[key] == session {
        forall s | s in live && s != session
          ensures s.Repr !! session.Repr && ch !in s.Repr
        {
          Separate(s, session);
        }
        var _ := ch.Remove(key);
        forall s | s in live && s != session
          ensures s.Valid() && s.Repr == old(s.Repr) && s.State() == old(s.State()) && s.Callbacks == old(s.Callbacks)
        {
          assert s.Valid() == old(s.Valid());
        }
        assert Departs(old(ch.sessions), Evicts(cb, ch), session) == {key};
      } else {
        assert Departs(ch.sessions, Evicts(cb, ch), session) == {};
      }
    }
  }

  /** The session that the channel named by a removal callback stores under its key now,
      or null (also for an application callback). */
  ghost function Holder(cb: CloseCallback): Session?
    reads if cb.func.RemoveFromChannel? && cb.func.channel is Channel then {cb.func.channel} else {}
  {
    if cb.func.RemoveFromChannel? && cb.func.channel is Channel then
      (cb.func.channel as Channel).Get(cb.func.key)
    else null
  }

  /** Runs one callback as the program does: a channel removal deletes its key from that
      channel whatever session the key stores now, evicting it; the evicted session loses
      that channel's callback for the key. */
  method FireAsWritten(cb: CloseCallback, ghost live: set<Session>, ghost world: set<Channel>, ghost objs: set<object>)
    returns (calls: seq<nat>)
    requires forall s :: s in live ==> s.Valid() && s.Repr <= objs
    requires forall c :: c in world ==> c.sessions.Values <= live
    requires cb.func.RemoveFromChannel? && cb.func.channel is Channel ==> cb.func.channel in world
    modifies world, objs
    ensures calls == Called(cb)
    ensures forall c :: c in world ==> c.sessions == old(c.sessions) - Evicts(cb, c)
    ensures forall s :: s in live ==> s.Valid() && s.Repr <= objs && s.State() == old(s.State())
    ensures forall s :: s in live ==>
      s.Callbacks == if s == old(Holder(cb)) then AfterRemove(old(s.Callbacks), s.closed, ChannelOwner(cb.func.channel), cb.func.key)
                     else old(s.Callbacks)
  {
    calls := Called(cb);
    if cb.func.RemoveFromChannel? && cb.func.channel is Channel {
      var ch := cb.func.channel as Channel;
      var key := cb.func.key;
      if key in ch.sessions {
        Evict(ch, key, live, objs);
      } else {
        var _ := ch.Remove(key);
      }
    }
  }

  /** Removes `key` from `ch`: the session stored there loses the channel's callback for
      the key, and every other session is left as it was. */
  method Evict(ch: Channel, key: Key, ghost live: set<Session>, ghost objs: set<object>)
    requires key in ch.sessions && ch.sessions.Values <= live
    requires forall s :: s in live ==> s.Valid() && s.Repr <= objs
    modifies ch, ch.sessions[key].Repr
    ensures ch.sessions == old(ch.sessions) - {key}
    ensures forall s :: s in live ==> s.Valid() && s.Repr <= objs && s.State() == old(s.State())
    ensures forall s :: s in live ==>
      s.Callbacks == if s == old(ch.sessions[key]) then AfterRemove(old(s.Callbacks), s.closed, ChannelOwner(ch), key)
                     else old(s.Callbacks)
  {
    var member := ch.sessions[key];
    forall s | s in live && s != member
      ensures s.Repr !! member.Repr && ch !in s.Repr
    {
      Separate(s, member);
    }
    var _ := ch.Remove(key);
    forall s | s in live && s != member
      ensures s.Valid() && s.Repr == old(s.Repr) && s.State() == old(s.State()) && s.Callbacks == old(s.Callbacks)
    {
      assert s.Valid() == old(s.Valid());
    }
  }

  /** Runs the callbacks `fired` of the closing `session` in order. */
  method FireAll(fired: seq<CloseCallback>, session: Session, ghost live: set<Session>, ghost world: set<Channel>,
                 ghost objs: set<object>)
    returns (calls: seq<nat>)
    requires session in live && session.closed
    requires forall s :: s in live ==> s.Valid() && s.Repr <= objs
    requires forall c :: c in world ==> c.sessions.Values <= live
    requires forall j :: 0 <= j < |fired| && fired[j].func.RemoveFromChannel? && fired[j].func.channel is Channel ==>
      fired[j].func.channel in world
    modifies world, objs
    ensures calls == UserCalls(fired, |fired|)
    ensures forall c :: c in world ==>
      c.sessions == old(c.sessions) - Departs(old(c.sessions), EvictedKeys(fired, |fired|, c), session)
    ensures forall s :: s in live ==>
      s.Valid() && s.Repr <= objs && s.State() == old(s.State()) && s.Callbacks == old(s.Callbacks)
  {
    ghost var base := map c | c in world :: c.sessions;
    calls := [];
    for i := 0 to |fired|
      invariant calls == UserCalls(fired, i)
      invariant forall c :: c in world ==>
        c.sessions == base[c] - Departs(base[c], EvictedKeys(fired, i, c), session)
      invariant forall c :: c in world ==> c.sessions.Values <= live
      invariant forall s :: s in live ==>
        s.Valid() && s.Repr <= objs && s.State() == old(s.State()) && s.Callbacks == old(s.Callbacks)
    {
      var more := FireNext(fired, i, session, live, world, objs, base);
      calls := calls + more;
    }
  }

  /** Step `i` of `FireAll`: runs callback `i`, so each channel of `world` has lost, from
      its contents `base` before the first step, the keys of callbacks `0..i`. */
  method FireNext(fired: seq<CloseCallback>, i: nat, session: Session, ghost live: set<Session>, ghost world: set<Channel>,
                  ghost objs: set<object>, ghost base: map<Channel, map<Key, Session>>)
    returns (calls: seq<nat>)
    requires i < |fired| && session in live && session.closed
    requires forall s :: s in live ==> s.Valid() && s.Repr <= objs
    requires forall c :: c in world ==> c.sessions.Values <= live
    requires fired[i].func.RemoveFromChannel? && fired[i].func.channel is Channel ==> fired[i].func.channel in world
    requires forall c :: c in world ==>
      c in base && c.sessions == base[c] - Departs(base[c], EvictedKeys(fired, i, c), session)
    modifies world, objs
    ensures calls == Called(fired[i])
    ensures forall c :: c in world ==>
      c.sessions == base[c] - Departs(base[c], EvictedKeys(fired, i + 1, c), session)
    ensures forall c :: c in world ==> c.sessions.Values <= live
    ensures forall s :: s in live ==>
      s.Valid() && s.Repr <= objs && s.State() == old(s.State()) && s.Callbacks == old(s.Callbacks)
  {
    calls := Fire(fired[i], session, live, world, objs);
    forall c | c in world
      ensures c.sessions == base[c] - Departs(base[c], EvictedKeys(fired, i + 1, c), session)
    {
      DepartsTwice(base[c], EvictedKeys(fired, i, c), Evicts(fired[i], c), session);
    }
  }

  /** The close task of `session`, started by its first `Close`. `live` stands for the
      sessions the program holds, `world` for its channels and `objs` for the objects of
      the live sessions' callback lists; every channel a callback of the session names is
      one of the channels. Each channel loses exactly the entries that store `session`
      under a key one of its callbacks names; no other session loses its place. */
  method RunCloseTask(session: Session, ghost live: set<Session>, ghost world: set<Channel>, ghost objs: set<object>)
    returns (calls: seq<nat>)
    requires session in live && session.closed && session.teardownPending
    requires forall s :: s in live ==> s.Valid() && s.Repr <= objs
    requires forall o :: o in objs ==> o is Session || o is CallbackNode
    requires forall c :: c in world ==> c.sessions.Values <= live
    requires forall j :: 0 <= j < |session.Callbacks| ==>
      (session.Callbacks[j].func.RemoveFromChannel? && session.Callbacks[j].func.channel is Channel ==>
         session.Callbacks[j].func.channel in world)
    requires session.manager is Manager ==> (session.manager as Manager).Valid()
    modifies world, objs
    modifies if session.manager is Manager then {session.manager, (session.manager as Manager).shards} else {}
    ensures calls == UserCalls(old(session.Callbacks), |old(session.Callbacks)|)
    ensures forall c :: c in world ==>
      c.sessions == old(c.sessions) - Departs(old(c.sessions), EvictedKeys(old(session.Callbacks), |old(session.Callbacks)|, c), session)
    ensures session.State() == old(session.State()).(teardownPending := false)
    ensures forall s :: s in live ==> s.Valid() && s.Callbacks == old(s.Callbacks)
    ensures forall s :: s in live && s != session ==> s.State() == old(s.State())
    ensures session.manager is Manager ==>
      var m := session.manager as Manager;
      var i := session.id % ShardCount;
      && m.Valid() && m.disposeDone == old(m.disposeDone)
      && m.shards[..] == old(m.shards[..])[i := old(m.shards[i]).(sessions := old(m.shards[i].sessions) - {session.id})]
      && m.pending == old(m.pending) - (if session.id in old(m.shards[i].sessions) then 1 else 0)
  {
    calls := RunCallbacks(session, live, world, objs);
    if session.manager is Manager {
      var m := session.manager as Manager;
      assert m.Valid() == old(m.Valid());
      m.DelSession(session);
    }
  }

  /** The first half of the close task: the session's callbacks, run in order. */
  method RunCallbacks(session: Session, ghost live: set<Session>, ghost world: set<Channel>, ghost objs: set<object>)
    returns (calls: seq<nat>)
    requires session in live && session.closed && session.teardownPending
    requires forall s :: s in live ==> s.Valid() && s.Repr <= objs
    requires forall c :: c in world ==> c.sessions.Values <= live
    requires forall j :: 0 <= j < |session.Callbacks| ==>
      (session.Callbacks[j].func.RemoveFromChannel? && session.Callbacks[j].func.channel is Channel ==>
         session.Callbacks[j].func.channel in world)
    modifies world, objs
    ensures calls == UserCalls(old(session.Callbacks), |old(session.Callbacks)|)
    ensures forall c :: c in world ==>
      c.sessions == old(c.sessions) - Departs(old(c.sessions), EvictedKeys(old(session.Callbacks), |old(session.Callbacks)|, c), session)
    ensures session.State() == old(session.State()).(teardownPending := false)
    ensures forall s :: s in live ==> s.Valid() && s.Repr <= objs && s.Callbacks == old(s.Callbacks)
    ensures forall s :: s in live && s != session ==> s.State() == old(s.State())
  {
    var fired := session.InvokeCloseCallbacks();
    calls := FireAll(fired, session, live, world, objs);
    Finish(session, live, objs);
  }

  /** The close task removes nothing but the closing session's own entries: every entry
      that stores another session keeps its key and its session. */
  lemma DepartsSparesOthers(m: map<Key, Session>, keys: set<Key>, s: Session)
    ensures forall k :: k in m && m[k] != s ==> k in m - Departs(m, keys, s) && (m - Departs(m, keys, s))[k] == m[k]
    ensures forall k :: k in keys && k in m && m[k] == s ==> k !in m - Departs(m, keys, s)
  {
  }

  /** Clears the session's pending teardown; every other live session is untouched. */
  method Finish(session: Session, ghost live: set<Session>, ghost objs: set<object>)
    requires session in live && forall s :: s in live ==> s.Valid() && s.Repr <= objs
    modifies session
    ensures session.State() == old(session.State()).(teardownPending := false)
    ensures session.Callbacks == old(session.Callbacks) && session.Repr == old(session.Repr)
    ensures forall s :: s in live ==> s.Valid() && s.Repr <= objs
    ensures forall s :: s in live && s != session ==> s.State() == old(s.State()) && s.Callbacks == old(s.Callbacks)
  {
    forall s | s in live && s != session
      ensures session !in s.Repr
    {
      assert OwnedBy(s.Repr, s);
    }
    session.FinishTeardown();
    forall s | s in live && s != session
      ensures s.Valid()
    {
      assert s.Valid() == old(s.Valid());
    }
  }

  /** Session `a` is put under "k" in a fresh channel and closes; its close task has not
      run yet. */
  method ClosedMember(gen: IdGenerator) returns (ch: Channel, a: Session)
    modifies gen
    ensures fresh(ch) && fresh(a.Repr) && a.Valid() && a.closed && a.teardownPending && a.manager == null
    ensures ch.sessions == map["k" := a] && a.Callbacks == [ch.Callback("k")]
  {
    ch := new Channel();
    var codecA := new Codec(false);
    a := NewClientSession(gen, codecA, 0);
    ch.Put("k", a);
    assert a.Callbacks == [ch.Callback("k")];
    var _ := a.Close(Nil);
  }

  /** Then, before that task runs, session `b` is put under "k": `a` is evicted but keeps
      its callback, since a closed session ignores removals. */
  method StaleSetup() returns (ch: Channel, a: Session, b: Session)
    ensures a.Valid() && a.closed && a.teardownPending && a.manager == null && a.Callbacks == [ch.Callback("k")]
    ensures b.Valid() && !b.closed && a.Repr !! b.Repr
    ensures ch.sessions == map["k" := b]
    ensures fresh(ch) && fresh(a.Repr) && fresh(b.Repr)
  {
    var gen := new IdGenerator();
    ch, a := ClosedMember(gen);
    var codecB := new Codec(false);
    b := NewClientSession(gen, codecB, 0);
    assert a.Repr !! b.Repr;
    assert ch.sessions["k" := b] == map["k" := b];
    ch.Put("k", b);
  }

  /** Session `a` is put under "k", closes, and before its close task runs `b` is put
      under "k". The task's channel callback, run as the program runs it, then removes
      "k" although it now stores `b`: `b` stays open but has left the channel. */
  method StaleCallbackEvictsSuccessor() returns (ch: Channel, b: Session)
    ensures "k" !in ch.sessions && b.Valid() && !b.closed
  {
    var a;
    ch, a, b := StaleSetup();
    var fired := a.InvokeCloseCallbacks();
    var _ := FireAsWritten(fired[0], {a, b}, {ch}, a.Repr + b.Repr);
  }

  /** The same steps with the corrected close task: `b` keeps its place under "k". */
  method StaleCallbackSparesSuccessor() returns (ch: Channel, b: Session)
    ensures ch.sessions == map["k" := b] && b.Valid() && !b.closed
  {
    var a;
    ch, a, b := StaleSetup();
    assert OwnedBy(a.Repr, a) && OwnedBy(b.Repr, b);
    var _ := RunCloseTask(a, {a, b}, {ch}, a.Repr + b.Repr);
  }

  /** A member leaves its channel by itself: session `a` is put under "k", closes, and
      its close task runs; afterwards the channel is empty. */
  method SelfCleanup() returns (ch: Channel)
    ensures ch.Get("k") == null && ch.Len() == 0
  {
    var gen := new IdGenerator();
    var a;
    ch, a := ClosedMember(gen);
    assert EvictedKeys(a.Callbacks, 1, ch) == {"k"};
    var _ := RunCloseTask(a, {a}, {ch}, a.Repr);
  }

  /** A session that is already closed when it is put into a channel gets no callback,
      so its close task leaves it in the channel. */
  method ClosedMemberStays() returns (ch: Channel, a: Session)
    ensures ch.Get("x") == a && a.closed && !a.teardownPending
  {
    var gen := new IdGenerator();
    ch := new Channel();
    var codec := new Codec(false);
    a := NewClientSession(gen, codec, 0);
    var _ := a.Close(Nil);
    ch.Put("x", a);
    assert a.Callbacks == [];
    var _ := RunCloseTask(a, {a}, {ch}, a.Repr);
  }
}
