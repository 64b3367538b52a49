/** A channel: sessions grouped under keys. A channel never closes its members; it keeps
    one close callback registered on each member so that a member's closing removes it. */
module Channels {
  import opened LinkTypes
  import opened Sessions

  class Channel {
    var sessions: map<Key, Session>

    constructor ()
      ensures sessions == map[]
    {
      sessions := map[];
    }

    /** The objects of every member's callback list. */
    ghost function Footprint(): set<object>
      reads this, sessions.Values
    {
      set s, o | s in sessions.Values && o in s.Repr :: o
    }

    ghost predicate MembersValid()
      reads this, sessions.Values, Footprint()
    {
      forall s :: s in sessions.Values ==> s.Valid()
    }

    /** The (handler, key) identity under which this channel registers its callbacks. */
    function Owner(): Handler {
      ChannelOwner(this)
    }

    /** The callback `Put` registers for `key`: remove `key` from this channel. */
    function Callback(key: Key): CloseCallback {
      CloseCallback(Owner(), key, RemoveFromChannel(this, key))
    }

    /** The number of keys held; zero exactly when the channel is empty. */
    function Len(): (n: nat)
      reads this
      ensures n == |sessions.Keys|
      ensures n == 0 <==> sessions == map[]
    {
      |sessions|
    }

    /** The session stored under `key`, or null. */
    function Get(key: Key): (s: Session?)
      reads this
      ensures s == null <==> key !in sessions
      ensures s != null ==> s == sessions[key]
    {
      if key in sessions then sessions[key] else null
    }

    /** Calls back once per member, in the map's (unspecified) iteration order; `visited`
        is the sequence of calls, `keys` the keys they were made for. Nothing changes. */
    method Fetch() returns (visited: seq<Session>, ghost keys: seq<Key>)
      ensures |visited| == |keys| == |sessions|
      ensures forall k :: k in sessions <==> k in keys
      ensures forall i :: 0 <= i < |keys| ==> keys[i] in sessions && visited[i] == sessions[keys[i]]
      ensures forall i, j :: 0 <= i < j < |keys| ==> keys[i] != keys[j]
    {
      var rest := sessions;
      visited, keys := [], [];
      while rest != map[]
        invariant |visited| == |keys|
        invariant forall k :: k in sessions <==> k in rest || k in keys
        invariant forall k :: k in rest ==> k in sessions && rest[k] == sessions[k] && k !in keys
        invariant forall i :: 0 <= i < |keys| ==> keys[i] in sessions && visited[i] == sessions[keys[i]]
        invariant forall i, j :: 0 <= i < j < |keys| ==> keys[i] != keys[j]
        invariant |keys| + |rest| == |sessions|
        decreases |rest|
      {
        var k :| k in rest;
        visited, keys := visited + [rest[k]], keys + [k];
        rest := rest - {k};
      }
    }

    /** Stores `session` under `key`. A previous occupant is evicted first: its callback
        for (this channel, key) is removed and it is not closed. The new member gets a
        callback that removes `key` from this channel when it closes. */
    method Put(key: Key, session: Session)
      requires session.Valid()
      requires key in sessions ==> sessions[key].Valid()
      modifies this, session.Repr, if key in sessions then sessions[key].Repr else {}
      ensures sessions == old(sessions)[key := session]
      ensures session.Valid() && fresh(session.Repr - old(session.Repr)) && session.State() == old(session.State())
      ensures key in old(sessions) && old(sessions[key]) == session ==>
        session.Callbacks == AfterAdd(AfterRemove(old(session.Callbacks), session.closed, Owner(), key), session.closed, Callback(key))
      ensures key in old(sessions) && old(sessions[key]) != session ==>
        var evicted := old(sessions[key]);
        && evicted.Valid() && evicted.Repr <= old(evicted.Repr) && evicted.State() == old(evicted.State())
        && evicted.Callbacks == AfterRemove(old(evicted.Callbacks), evicted.closed, Owner(), key)
        && session.Callbacks == AfterAdd(old(session.Callbacks), session.closed, Callback(key))
      ensures key !in old(sessions) ==>
        session.Callbacks == AfterAdd(old(session.Callbacks), session.closed, Callback(key))
    {
      if key !in sessions {
        AddEntry(key, session);
      } else if sessions[key] == session {
        Rebind(key, session);
      } else {
        Replace(key, session);
      }
    }

    /** `Put` of the session already stored under `key`: its old callback is replaced by a new one. */
    method Rebind(key: Key, session: Session)
      requires session.Valid() && key in sessions && sessions[key] == session
      modifies this, session.Repr
      ensures sessions == old(sessions)
      ensures session.Valid() && fresh(session.Repr - old(session.Repr)) && session.State() == old(session.State())
      ensures session.Callbacks == AfterAdd(AfterRemove(old(session.Callbacks), session.closed, Owner(), key), session.closed, Callback(key))
    {
      RemoveEntry(key, session);
      AddEntry(key, session);
    }

    /** `Put` over a different occupant: evict it, then add `session`. */
    method Replace(key: Key, session: Session)
      requires session.Valid()
      requires key in sessions && sessions[key].Valid() && sessions[key] != session
      modifies this, session.Repr, sessions[key].Repr
      ensures sessions == old(sessions)[key := session]
      ensures session.Valid() && fresh(session.Repr - old(session.Repr)) && session.State() == old(session.State())
      ensures session.Callbacks == AfterAdd(old(session.Callbacks), session.closed, Callback(key))
      ensures var evicted := old(sessions[key]);
        && evicted.Valid() && evicted.Repr <= old(evicted.Repr) && evicted.State() == old(evicted.State())
        && evicted.Callbacks == AfterRemove(old(evicted.Callbacks), evicted.closed, Owner(), key)
    {
      var evicted := sessions[key];
      Separate(evicted, session);
      RemoveEntry(key, evicted);
      assert session.Valid() == old(session.Valid()) && session.State() == old(session.State());
      assert session.Callbacks == old(session.Callbacks) && session.Repr == old(session.Repr);
      label Evicted:
      AddEntry(key, session);
      assert evicted.Valid() == old@Evicted(evicted.Valid()) && evicted.State() == old@Evicted(evicted.State());
      assert evicted.Callbacks == old@Evicted(evicted.Callbacks) && evicted.Repr == old@Evicted(evicted.Repr);
    }

    /** Registers this channel's callback for `key` on `session` and stores it. */
    method AddEntry(key: Key, session: Session)
      requires session.Valid()
      modifies this, session.Repr
      ensures sessions == old(sessions)[key := session]
      ensures session.Valid() && fresh(session.Repr - old(session.Repr)) && session.State() == old(session.State())
      ensures session.Callbacks == AfterAdd(old(session.Callbacks), session.closed, Callback(key))
    {
      var cb := Callback(key);
      session.AddCloseCallback(cb.handler, cb.key, cb.func);
      sessions := sessions[key := session];
    }

    /** Unregisters this channel's callback for `key` from `session` and deletes `key`. */
    method RemoveEntry(key: Key, session: Session)
      requires session.Valid()
      modifies this, session.Repr
      ensures sessions == old(sessions) - {key}
      ensures session.Valid() && session.Repr <= old(session.Repr) && session.State() == old(session.State())
      ensures session.Callbacks == AfterRemove(old(session.Callbacks), session.closed, Owner(), key)
    {
      session.RemoveCloseCallback(Owner(), key);
      sessions := sessions - {key};
    }

    /** Deletes `key`, unregistering the member's callback; reports whether it was present. */
    method Remove(key: Key) returns (found: bool)
      requires key in sessions ==> sessions[key].Valid()
      modifies this, if key in sessions then sessions[key].Repr else {}
      ensures found == (key in old(sessions))
      ensures sessions == old(sessions) - {key}
      ensures found ==>
        var member := old(sessions[key]);
        && member.Valid() && member.Repr <= old(member.Repr) && member.State() == old(member.State())
        && member.Callbacks == AfterRemove(old(member.Callbacks), member.closed, Owner(), key)
    {
      found := key in sessions;
      if found {
        RemoveEntry(key, sessions[key]);
      }
    }

    /** Empties the channel, calling back once per member as it is removed; every
        member loses this channel's callback for each key it was stored under. */
    method FetchAndRemove() returns (visited: seq<Session>, ghost keys: seq<Key>)
      requires MembersValid()
      modifies this, Footprint()
      ensures sessions == map[]
      ensures |visited| == |keys| == |old(sessions)|
      ensures forall k :: k in old(sessions) <==> k in keys
      ensures forall i :: 0 <= i < |keys| ==> visited[i] == old(sessions)[keys[i]]
      ensures forall i, j :: 0 <= i < j < |keys| ==> keys[i] != keys[j]
      ensures Unregistered(old(sessions), keys)
    {
      ghost var members := sessions;
      ghost var before := SnapshotOf(members);
      DrainStart(before);
      visited, keys := [], [];
      while sessions != map[]
        invariant Progress(members, sessions, keys)
        invariant Visits(members, keys, visited)
        invariant Drained(members, keys, before)
        decreases |sessions|
      {
        var k :| k in sessions;
        ghost var valid := sessions[k].Valid();
        var session := DrainOne(k, members, keys, before);
        VisitsStep(members, keys, visited, k);
        visited, keys := visited + [session], keys + [k];
      }
      ProgressDone(members, keys);
      forall s | s in members.Values
        ensures s.Valid() && s.Repr <= old(s.Repr) && s.State() == old(s.State())
        ensures s.Callbacks == Unregister(old(s.Callbacks), s.closed, Owner(), KeysOf(keys, members, s))
      {
        ghost var valid := s.Valid();
      }
    }

    /** Empties the channel, unregistering its callback from every member; closes no
        session and calls back nobody. */
    method Close() returns (ghost keys: seq<Key>)
      requires MembersValid()
      modifies this, Footprint()
      ensures sessions == map[]
      ensures forall k :: k in old(sessions) <==> k in keys
      ensures forall i, j :: 0 <= i < j < |keys| ==> keys[i] != keys[j]
      ensures Unregistered(old(sessions), keys)
    {
      ghost var members := sessions;
      ghost var before := SnapshotOf(members);
      DrainStart(before);
      keys := [];
      while sessions != map[]
        invariant Progress(members, sessions, keys)
        invariant Drained(members, keys, before)
        decreases |sessions|
      {
        var k :| k in sessions;
        ghost var valid := sessions[k].Valid();
        var _ := DrainOne(k, members, keys, before);
        keys := keys + [k];
      }
      ProgressDone(members, keys);
      forall s | s in members.Values
        ensures s.Valid() && s.Repr <= old(s.Repr) && s.State() == old(s.State())
        ensures s.Callbacks == Unregister(old(s.Callbacks), s.closed, Owner(), KeysOf(keys, members, s))
      {
        ghost var valid := s.Valid();
      }
    }

    /** One step of emptying the channel: removes `k` and the callback registered for it,
        keeping `Drained` with `k` appended to the keys done. */
    method DrainOne(k: Key, ghost members: map<Key, Session>, ghost keys: seq<Key>, ghost before: map<Session, Snapshot>)
        returns (session: Session)
      requires k in sessions && Progress(members, sessions, keys)
      requires Drained(members, keys, before)
      modifies this, sessions[k].Repr
      ensures session == members[k]
      ensures sessions == old(sessions) - {k} && |sessions| < old(|sessions|)
      ensures Progress(members, sessions, keys + [k])
      ensures Drained(members, keys + [k], before)
    {
      ProgressStep(members, sessions, keys, k);
      session := sessions[k];
      ghost var valid := session.Valid();
      forall t | t in members.Values && t != session
        ensures t.Repr !! session.Repr
      {
        Separate(session, t);
      }
      RemoveEntry(k, session);
      forall t | t in members.Values
        ensures t in before && t.Valid() && t.Repr <= before[t].repr && t.State() == before[t].state
        ensures t.Callbacks == Unregister(before[t].callbacks, t.closed, Owner(), KeysOf(keys + [k], members, t))
      {
        ghost var valid := old(t.Valid());
        KeysOfSnoc(keys, k, members, t);
        if t == session {
          assert old(t.Callbacks) == Unregister(before[t].callbacks, t.closed, Owner(), KeysOf(keys, members, t));
          UnregisterSnoc(before[t].callbacks, t.closed, Owner(), KeysOf(keys, members, t), k);
        } else {
          assert t.Valid() == old(t.Valid()) && t.State() == old(t.State()) && t.Callbacks == old(t.Callbacks);
          assert KeysOf(keys + [k], members, t) == KeysOf(keys, members, t);
        }
      }
    }

    /** Before anything is drained, every member is as recorded and within the frame. */
    lemma DrainStart(before: map<Session, Snapshot>)
      requires MembersValid() && before == SnapshotOf(sessions)
      ensures Drained(sessions, [], before)
      ensures forall s :: s in sessions.Values ==> before[s].repr <= Footprint()
    {
      forall s | s in sessions.Values
        ensures s in before && s.Valid() && s.Repr <= before[s].repr && s.State() == before[s].state
        ensures s.Callbacks == Unregister(before[s].callbacks, s.closed, Owner(), KeysOf([], sessions, s))
      {
        assert KeysOf([], sessions, s) == [];
      }
    }

    /** Each member of `members` is valid, unchanged apart from its callback list, and has
        lost this channel's callback for each of its keys among `keys`, in that order. */
    twostate predicate Unregistered(members: map<Key, Session>, keys: seq<Key>)
      reads members.Values, set s, o | s in members.Values && o in s.Repr :: o
    {
      forall s {:trigger s.Valid()} :: s in members.Values ==>
        && s.Valid() && s.Repr <= old(s.Repr) && s.State() == old(s.State())
        && s.Callbacks == Unregister(old(s.Callbacks), s.closed, Owner(), KeysOf(keys, members, s))
    }

    /** `Unregistered`, measured against recorded states `before` instead of the old heap. */
    ghost predicate Drained(members: map<Key, Session>, keys: seq<Key>, before: map<Session, Snapshot>)
      reads members.Values, set s, o | s in members.Values && o in s.Repr :: o
    {
      forall s {:trigger s.Valid()} :: s in members.Values ==>
        && s in before && s.Valid() && s.Repr <= before[s].repr && s.State() == before[s].state
        && s.Callbacks == Unregister(before[s].callbacks, s.closed, Owner(), KeysOf(keys, members, s))
    }
  }

  /** Emptying a channel that stored `members` has removed the keys `keys`, each once,
      and `rest` is what remains of the map. */
  ghost predicate Progress(members: map<Key, Session>, rest: map<Key, Session>, keys: seq<Key>) {
    && (forall k :: k in members <==> k in rest || k in keys)
    && (forall k :: k in rest ==> k in members && rest[k] == members[k] && k !in keys)
    && (forall i, j :: 0 <= i < j < |keys| ==> keys[i] != keys[j])
    && |keys| + |rest| == |members|
  }

  lemma ProgressStep(members: map<Key, Session>, rest: map<Key, Session>, keys: seq<Key>, k: Key)
    requires Progress(members, rest, keys) && k in rest
    ensures Progress(members, rest - {k}, keys + [k])
    ensures k in members && rest[k] == members[k] && |rest - {k}| < |rest|
  {
  }

  /** `visited` holds, position by position, the members stored under `keys`. */
  ghost predicate Visits(members: map<Key, Session>, keys: seq<Key>, visited: seq<Session>) {
    && |visited| == |keys|
    && forall i :: 0 <= i < |keys| ==> keys[i] in members && visited[i] == members[keys[i]]
  }

  lemma VisitsStep(members: map<Key, Session>, keys: seq<Key>, visited: seq<Session>, k: Key)
    requires Visits(members, keys, visited) && k in members
    ensures Visits(members, keys + [k], visited + [members[k]])
  {
  }

  lemma ProgressDone(members: map<Key, Session>, keys: seq<Key>)
    requires Progress(members, map[], keys)
    ensures forall k :: k in members <==> k in keys
    ensures |keys| == |members|
    ensures forall i, j :: 0 <= i < j < |keys| ==> keys[i] != keys[j]
  {
  }

  /** What a member looked like when a drain began. */
  datatype Snapshot = Snapshot(repr: set<object>, state: SendState, callbacks: seq<CloseCallback>)

  ghost function SnapshotOf(members: map<Key, Session>): (m: map<Session, Snapshot>)
    reads members.Values
    ensures forall s :: s in members.Values ==> s in m && m[s] == Snapshot(s.Repr, s.State(), s.Callbacks)
  {
    map s | s in members.Values :: Snapshot(s.Repr, s.State(), s.Callbacks)
  }

  /** `cbs` after one removal of (h, k) for each k of `ks`, in order; a closed session
      ignores removals. */
  function Unregister(cbs: seq<CloseCallback>, closed: bool, h: Handler, ks: seq<Key>): seq<CloseCallback>
    decreases |ks|
  {
    if ks == [] then cbs
    else AfterRemove(Unregister(cbs, closed, h, ks[..|ks| - 1]), closed, h, ks[|ks| - 1])
  }

  /** The keys among `keys`, in order, under which `m` stores `s`. */
  function KeysOf(keys: seq<Key>, m: map<Key, Session>, s: Session): seq<Key>
    decreases |keys|
  {
    if keys == [] then []
    else
      var k := keys[|keys| - 1];
      KeysOf(keys[..|keys| - 1], m, s) + if k in m && m[k] == s then [k] else []
  }

  lemma KeysOfSnoc(keys: seq<Key>, k: Key, m: map<Key, Session>, s: Session)
    ensures KeysOf(keys + [k], m, s) == KeysOf(keys, m, s) + if k in m && m[k] == s then [k] else []
  {
    assert (keys + [k])[..|keys|] == keys;
  }

  lemma UnregisterSnoc(cbs: seq<CloseCallback>, closed: bool, h: Handler, ks: seq<Key>, k: Key)
    ensures Unregister(cbs, closed, h, ks + [k]) == AfterRemove(Unregister(cbs, closed, h, ks), closed, h, k)
  {
    assert (ks + [k])[..|ks|] == ks;
  }
}
