/** The session manager: the sessions it created, spread over a fixed number of shards by
    id, and a counter of admitted sessions that have not been deleted yet (the counter
    `Dispose` waits on). */
module Managers {
  import opened LinkTypes
  import opened Sessions

  /** The number of shards; a session lives in shard `id % ShardCount`. */
  const ShardCount: nat := 32

  /** One shard: the sessions routed to it, by id, and whether it has been disposed. */
  datatype Shard = Shard(sessions: map<nat, Session>, disposed: bool)

  /** Every session of `shard` belongs in shard `i`, is stored under its own id, and
      names `m` as its manager. */
  ghost predicate Fits(shard: Shard, i: nat, m: object) {
    forall id :: id in shard.sessions ==>
      id % ShardCount == i && shard.sessions[id].id == id && shard.sessions[id].manager == m
  }

  /** Every session sits in the shard its id selects. */
  ghost predicate Routed(shards: seq<Shard>, m: object) {
    forall i :: 0 <= i < |shards| ==> Fits(shards[i], i, m)
  }

  /** The total number of sessions held by `shards`. */
  function Population(shards: seq<Shard>): nat {
    if shards == [] then 0 else Population(shards[..|shards| - 1]) + |shards[|shards| - 1].sessions|
  }

  /** The manager's state as values: `ShardCount` shards routed by id, a counter equal to
      the number of sessions held, and every shard disposed once `Dispose` has run. */
  ghost predicate Consistent(shards: seq<Shard>, pending: int, disposeDone: bool, m: object) {
    && |shards| == ShardCount
    && Routed(shards, m)
    && pending == Population(shards)
    && (disposeDone ==> forall i :: 0 <= i < |shards| ==> shards[i].disposed)
  }

  /** Every id held is at most `bound`. */
  ghost predicate IdsAtMost(shards: seq<Shard>, bound: nat) {
    forall i, id :: 0 <= i < |shards| && id in shards[i].sessions ==> id <= bound
  }

  /** The sessions held by `shards`. */
  ghost function Members(shards: seq<Shard>): set<Session> {
    set i, id | 0 <= i < |shards| && id in shards[i].sessions :: shards[i].sessions[id]
  }

  /** The codecs of the sessions held by `shards`. */
  ghost function Codecs(shards: seq<Shard>): set<Codec> {
    set s | s in Members(shards) :: s.codec
  }

  /** What a session looked like at some earlier point, whether it was valid then, and
      how many close calls and queue hand-offs its codec had seen. */
  datatype Record = Record(state: SendState, callbacks: seq<CloseCallback>, repr: set<object>, valid: bool,
                           closeCalls: nat, cleared: seq<seq<Msg>>)

  ghost function RecordOf(s: Session): Record
    reads s, s.Repr, s.codec
  {
    Record(s.State(), s.Callbacks, s.Repr, s.Valid(), s.codec.closeCalls, s.codec.cleared)
  }

  /** The codec of `s` has at most seen more close calls and hand-offs since `r` was
      recorded (sessions may share a codec, so closing another session can add to them). */
  ghost predicate CodecSince(s: Session, r: Record)
    reads s, s.codec
  {
    s.codec.closeCalls >= r.closeCalls && r.cleared <= s.codec.cleared
  }

  /** `s` is as `r` recorded it, and valid if it was valid then. */
  ghost predicate KeptSince(s: Session, r: Record)
    reads s, s.Repr, s.codec
  {
    && s.State() == r.state && s.Callbacks == r.callbacks && s.Repr == r.repr
    && (r.valid ==> s.Valid())
    && CodecSince(s, r)
  }

  /** `s` has been closed since `r` was recorded, with the effects `Close` has: the send
      queue closed and, for a codec with the extension, handed to it; the codec closed;
      the close task pending. Nothing else about the session changed. */
  ghost predicate ClosedSince(s: Session, r: Record)
    reads s, s.Repr, s.codec
  {
    && s.closed && s.Callbacks == r.callbacks && s.Repr == r.repr
    && (r.state.closed ==> s.State() == r.state)
    && (!r.state.closed ==> s.teardownPending && s.queue == r.state.queue)
    && (!r.state.closed ==> s.queueClosed == (s.buffered || r.state.queueClosed))
    && (r.valid ==> s.Valid())
    && CodecSince(s, r)
    && (!r.state.closed ==> s.codec.closeCalls > r.closeCalls)
    && (!r.state.closed && s.buffered && s.codec.clearsSendChan ==> s.queue in s.codec.cleared[|r.cleared|..])
  }

  /** `s` has been through `Close` since the earlier state. */
  twostate predicate Closing(s: Session)
    reads s, s.Repr, s.codec
  {
    ClosedSince(s, old(RecordOf(s)))
  }

  class Manager {
    const shards: array<Shard>
    /** The wait-group counter. */
    var pending: int
    /** Whether the one-shot body of `Dispose` has run. */
    var disposeDone: bool

    ghost predicate Valid()
      reads this, shards
    {
      shards.Length == ShardCount && Consistent(shards[..], pending, disposeDone, this)
    }

    /** A manager with `ShardCount` empty, live shards. */
    constructor ()
      ensures Valid() && fresh(shards) && pending == 0 && !disposeDone
      ensures forall i :: 0 <= i < ShardCount ==> shards[i] == Shard(map[], false)
      ensures IdsAtMost(shards[..], 0)
    {
      shards := new Shard[ShardCount];
      pending, disposeDone := 0, false;
      new;
      for i := 0 to ShardCount
        invariant pending == 0 && !disposeDone
        invariant forall j :: 0 <= j < i ==> shards[j] == Shard(map[], false)
      {
        shards[i] := Shard(map[], false);
      }
      PopulationZero(shards[..]);
    }

    /** The session with id `id`, found in its own shard, or null when no shard holds it. */
    function GetSession(id: nat): (r: Session?)
      requires Valid()
      reads this, shards
      ensures r == null <==> forall i :: 0 <= i < ShardCount ==> id !in shards[i].sessions
      ensures forall i :: 0 <= i < ShardCount && id in shards[i].sessions ==> r == shards[i].sessions[id]
    {
      var shard := shards[id % ShardCount];
      if id in shard.sessions then shard.sessions[id] else null
    }

    /** Creates a session with the next id and offers it to the manager. */
    method NewSession(gen: IdGenerator, codec: Codec, sendChanSize: int) returns (session: Session)
      requires Valid() && IdsAtMost(shards[..], gen.last)
      modifies this, shards, gen, codec
      ensures Valid() && IdsAtMost(shards[..], gen.last) && disposeDone == old(disposeDone)
      ensures fresh(session) && session.Valid() && session.id == gen.last == old(gen.last) + 1
      ensures session.manager == this && session.codec == codec && session.Callbacks == []
      ensures session.sendChanSize == sendChanSize && session.buffered == (sendChanSize > 0)
      ensures var i := session.id % ShardCount;
        if old(shards[i].disposed) then
          && shards[..] == old(shards[..]) && pending == old(pending)
          && session.State() == SendState(true, [], session.buffered, true)
          && codec.closeCalls == old(codec.closeCalls) + 1
          && codec.cleared == old(codec.cleared) + (if session.buffered && codec.clearsSendChan then [[]] else [])
        else
          && shards[..] == old(shards[..])[i := old(shards[i]).(sessions := old(shards[i].sessions)[session.id := session])]
          && pending == old(pending) + 1 && session.State() == SendState(false, [], false, false)
          && unchanged(codec)
    {
      var id := gen.Next();
      session := new Session(id, codec, this, sendChanSize);
      ghost var before := shards[..];
      PutSession(session);
      IdsAfterAdmit(before, shards[..], session, old(gen.last));
    }

    /** Admits `session` into its shard and counts it, or closes it when the shard has been
        disposed. Ids are issued once, so the shard does not hold the id yet. */
    method PutSession(session: Session)
      requires Valid() && session.manager == this
      requires session.id !in shards[session.id % ShardCount].sessions
      modifies this, shards, session, session.codec
      ensures Valid() && disposeDone == old(disposeDone)
      ensures var i := session.id % ShardCount;
        if old(shards[i].disposed) then
          && shards[..] == old(shards[..]) && pending == old(pending) && Closing(session)
          && (!old(session.closed) ==> session.codec.closeCalls == old(session.codec.closeCalls) + 1)
          && (!old(session.closed) ==>
                session.codec.cleared == old(session.codec.cleared) + (if session.buffered && session.codec.clearsSendChan then [session.queue] else []))
        else
          && shards[..] == old(shards[..])[i := old(shards[i]).(sessions := old(shards[i].sessions)[session.id := session])]
          && pending == old(pending) + 1 && unchanged(session, session.codec)
    {
      var i := session.id % ShardCount;
      if shards[i].disposed {
        var _ := session.Close(Nil);
        assert Valid() == old(Valid());
        return;
      }
      Admit(shards[..], pending, disposeDone, this, session);
      shards[i] := shards[i].(sessions := shards[i].sessions[session.id := session]);
      pending := pending + 1;
    }

    /** Deletes `session` from its shard and counts it out, provided the shard held it:
        a session that was never admitted (it met a disposed shard) was never counted in. */
    method DelSession(session: Session)
      requires Valid()
      modifies this, shards
      ensures Valid() && disposeDone == old(disposeDone)
      ensures var i := session.id % ShardCount;
        shards[..] == old(shards[..])[i := old(shards[i]).(sessions := old(shards[i].sessions) - {session.id})]
      ensures pending == old(pending) - (if session.id in old(shards[session.id % ShardCount].sessions) then 1 else 0)
    {
      var i := session.id % ShardCount;
      var admitted := session.id in shards[i].sessions;
      Delete(shards[..], pending, disposeDone, this, session.id);
      shards[i] := shards[i].(sessions := shards[i].sessions - {session.id});
      if admitted {
        pending := pending - 1;
      }
    }

    /** `delSession` as the library writes it: the counter is decremented whether or not
        the shard held the session. */
    method DelSessionAsWritten(session: Session)
      requires shards.Length == ShardCount
      modifies this, shards
      ensures var i := session.id % ShardCount;
        shards[..] == old(shards[..])[i := old(shards[i]).(sessions := old(shards[i].sessions) - {session.id})]
      ensures pending == old(pending) - 1 && disposeDone == old(disposeDone)
    {
      var i := session.id % ShardCount;
      shards[i] := shards[i].(sessions := shards[i].sessions - {session.id});
      pending := pending - 1;
    }

    /** The first call disposes every shard and closes every session held; the sessions
        stay in their shards until their close tasks delete them. Later calls do nothing. */
    method Dispose()
      requires Valid()
      modifies this, shards, Members(shards[..]), Codecs(shards[..])
      ensures Valid() && disposeDone && pending == old(pending)
      ensures old(disposeDone) ==> unchanged(shards) && forall s :: s in old(Members(shards[..])) ==> unchanged(s, s.codec)
      ensures !old(disposeDone) ==> forall i :: 0 <= i < ShardCount ==> shards[i] == old(shards[i]).(disposed := true)
      ensures !old(disposeDone) ==> forall s :: s in old(Members(shards[..])) ==> Closing(s)
    {
      if !disposeDone {
        DisposeOnce();
      }
    }

    /** The body `Dispose` runs once. */
    method DisposeOnce()
      requires Valid() && !disposeDone
      modifies this, shards, Members(shards[..]), Codecs(shards[..])
      ensures Valid() && disposeDone && pending == old(pending)
      ensures forall i :: 0 <= i < ShardCount ==> shards[i] == old(shards[i]).(disposed := true)
      ensures forall s :: s in old(Members(shards[..])) ==> Closing(s)
    {
      DisposeAll();
      AllDisposed(shards[..], pending, this);
      disposeDone := true;
    }

    /** The loop of `Dispose`: shard after shard is disposed and its sessions closed. */
    method DisposeAll()
      requires Valid() && !disposeDone
      modifies shards, Members(shards[..]), Codecs(shards[..])
      ensures Valid() && shards[..] == DisposedUpTo(old(shards[..]), ShardCount)
      ensures forall s :: s in old(Members(shards[..])) ==> Closing(s) && (old(s.Valid()) ==> this !in s.Repr)
    {
      ghost var members := Members(shards[..]);
      ghost var records := RecordsOf(members);
      assert forall s :: s in members ==> records[s] == old(RecordOf(s));
      RecordsKept(members);
      RecordsApart(members, this, shards);
      DisposeShards(members, records);
      forall s | s in members
        ensures Closing(s) && (old(s.Valid()) ==> this !in s.Repr)
      {
        assert ClosedSince(s, records[s]);
      }
    }

    /** Shard after shard is disposed and its sessions closed. */
    method DisposeShards(ghost members: set<Session>, ghost records: map<Session, Record>)
      requires Valid() && !disposeDone && members == Members(shards[..])
      requires forall t :: t in members ==> t in records && KeptSince(t, records[t])
      requires Apart(records, shards)
      modifies shards, members, set s | s in members :: s.codec
      ensures Valid() && shards[..] == DisposedUpTo(old(shards[..]), ShardCount)
      ensures forall t :: t in members ==> ClosedSince(t, records[t])
    {
      for i := 0 to ShardCount
        invariant Valid() && members == Members(shards[..])
        invariant shards[..] == DisposedUpTo(old(shards[..]), i)
        invariant forall t :: t in members ==>
          t in records && (if t.id % ShardCount < i then ClosedSince(t, records[t]) else KeptSince(t, records[t]))
      {
        ShardInMembers(shards[..], i);
        DisposeShard(i, members, records);
        DisposedStep(old(shards[..]), i);
      }
    }

    /** Marks shard `i` disposed and closes its sessions. */
    method DisposeShard(i: nat, ghost members: set<Session>, ghost records: map<Session, Record>)
      requires Valid() && !disposeDone && i < ShardCount
      requires members == Members(shards[..]) && shards[i].sessions.Values <= members && Apart(records, shards)
      requires forall t :: t in members ==>
        t in records && (if t.id % ShardCount < i then ClosedSince(t, records[t]) else KeptSince(t, records[t]))
      modifies shards, members, set s | s in members :: s.codec
      ensures Valid() && shards[..] == old(shards[..])[i := old(shards[i]).(disposed := true)]
      ensures members == Members(shards[..])
      ensures forall t :: t in members ==>
        if t.id % ShardCount <= i then ClosedSince(t, records[t]) else KeptSince(t, records[t])
    {
      MarkDisposed(shards[..], pending, this, i);
      MembersRouted(shards[..], this, i);
      shards[i] := shards[i].(disposed := true);
      CloseShardMembers(shards[i].sessions, i, members, records);
    }

    /** Closes each session of shard `i`'s map, in the map's (unspecified) iteration order. */
    method CloseShardMembers(sessions: map<nat, Session>, i: nat, ghost members: set<Session>, ghost records: map<Session, Record>)
      requires sessions.Values <= members
      requires forall id :: id in sessions ==> id % ShardCount == i && sessions[id].id == id
      requires forall t :: t in members && t.id % ShardCount == i ==> t.id in sessions && sessions[t.id] == t
      requires forall t :: t in members ==>
        t in records && (if t.id % ShardCount < i then ClosedSince(t, records[t]) else KeptSince(t, records[t]))
      modifies members, set s | s in members :: s.codec
      ensures forall t :: t in members ==>
        if t.id % ShardCount <= i then ClosedSince(t, records[t]) else KeptSince(t, records[t])
    {
      var rest := sessions.Keys;
      ghost var done: set<Session> := {};
      while rest != {}
        invariant rest <= sessions.Keys
        invariant forall id :: id in sessions && id !in rest ==> sessions[id] in done
        invariant forall t :: t in done ==> t.id in sessions && t.id !in rest && sessions[t.id] == t
        invariant forall t :: t in members ==>
          if t.id % ShardCount < i || t in done then ClosedSince(t, records[t]) else KeptSince(t, records[t])
        decreases rest
      {
        var id :| id in rest;
        CloseMember(sessions[id], members, records, done);
        done := done + {sessions[id]};
        rest := rest - {id};
      }
      assert forall t :: t in members && t.id % ShardCount == i ==> t in done;
    }

    /** Closes `s`, a member not closed yet in this round; every other member is left as
        it was. */
    method CloseMember(s: Session, ghost members: set<Session>, ghost records: map<Session, Record>, ghost done: set<Session>)
      requires s in members && s !in done
      requires forall t :: t in members ==>
        t in records && (if t.id % ShardCount < s.id % ShardCount || t in done then ClosedSince(t, records[t]) else KeptSince(t, records[t]))
      modifies s, s.codec
      ensures forall t :: t in members ==>
        if t.id % ShardCount < s.id % ShardCount || t in done + {s} then ClosedSince(t, records[t]) else KeptSince(t, records[t])
    {
      ghost var handed := s.codec.cleared;
      var _ := s.Close(Nil);
      HandOffsKept(records[s].cleared, handed, s.codec.cleared);
      if !records[s].state.closed && s.buffered && s.codec.clearsSendChan {
        assert s.codec.cleared[|handed|] == s.queue;
      }
      forall t | t in members && t != s
        ensures if t.id % ShardCount < s.id % ShardCount || t in done then ClosedSince(t, records[t]) else KeptSince(t, records[t])
      {
        if records[t].valid {
          assert s !in old(t.Repr) && s.codec !in old(t.Repr);
          assert t.Valid() == old(t.Valid());
        }
        if t.codec == s.codec {
          HandOffsKept(records[t].cleared, handed, s.codec.cleared);
        }
      }
    }

    /** The counter is zero exactly when no shard holds a session: waiting on it ends once
        every admitted session has been deleted. */
    lemma IdleIffEmpty()
      requires Valid()
      ensures pending == 0 <==> forall i :: 0 <= i < ShardCount ==> shards[i].sessions == map[]
    {
      PopulationZero(shards[..]);
    }
  }

  ghost function RecordsOf(members: set<Session>): (r: map<Session, Record>)
    reads members, set s, o | s in members && o in s.Repr :: o, set s | s in members :: s.codec
    ensures forall s :: s in members ==> s in r && r[s] == RecordOf(s)
  {
    map s | s in members :: RecordOf(s)
  }

  /** No session recorded as valid has `o` among its objects. */
  ghost predicate Apart(records: map<Session, Record>, o: object) {
    forall t :: t in records && records[t].valid ==> o !in records[t].repr
  }

  /** A valid session's objects are itself and its list nodes, so no other kind of object
      is among them. */
  lemma RecordsApart(members: set<Session>, o: object, p: object)
    requires !(o is Session) && !(o is CallbackNode) && !(p is Session) && !(p is CallbackNode)
    ensures Apart(RecordsOf(members), o) && Apart(RecordsOf(members), p)
  {
  }

  /** A record just taken holds for every session it covers. */
  lemma RecordsKept(members: set<Session>)
    ensures forall s :: s in members ==> KeptSince(s, RecordsOf(members)[s])
  {
  }

  /** Hand-offs only append: whatever was handed over after the recorded prefix `r` is
      still there once more are appended, and so is every queue appended after `c`. */
  lemma HandOffsKept(r: seq<seq<Msg>>, c: seq<seq<Msg>>, d: seq<seq<Msg>>)
    requires r <= c && c <= d
    ensures r <= d
    ensures forall q :: q in c[|r|..] ==> q in d[|r|..]
    ensures forall j :: |c| <= j < |d| ==> d[j] in d[|r|..]
  {
    forall q | q in c[|r|..]
      ensures q in d[|r|..]
    {
      var j :| 0 <= j < |c| - |r| && c[|r|..][j] == q;
      assert d[|r|..][j] == q;
    }
    forall j | |c| <= j < |d|
      ensures d[j] in d[|r|..]
    {
      assert d[|r|..][j - |r|] == d[j];
    }
  }

  /** Admitting a fresh session into its live shard keeps the state consistent and adds one
      to the counter. */
  lemma Admit(shards: seq<Shard>, pending: int, disposeDone: bool, m: object, s: Session)
    requires Consistent(shards, pending, disposeDone, m) && s.manager == m
    requires var i := s.id % ShardCount; !shards[i].disposed && s.id !in shards[i].sessions
    ensures var i := s.id % ShardCount;
      Consistent(shards[i := shards[i].(sessions := shards[i].sessions[s.id := s])], pending + 1, disposeDone, m)
  {
    var i := s.id % ShardCount;
    PopulationUpdate(shards, i, shards[i].(sessions := shards[i].sessions[s.id := s]));
  }

  /** Deleting an id keeps the state consistent when the counter drops by one exactly
      when the id was held. */
  lemma Delete(shards: seq<Shard>, pending: int, disposeDone: bool, m: object, id: nat)
    requires Consistent(shards, pending, disposeDone, m)
    ensures var i := id % ShardCount;
      Consistent(shards[i := shards[i].(sessions := shards[i].sessions - {id})],
        pending - (if id in shards[i].sessions then 1 else 0), disposeDone, m)
  {
    var i := id % ShardCount;
    PopulationUpdate(shards, i, shards[i].(sessions := shards[i].sessions - {id}));
  }

  /** Setting one shard's flag keeps the state consistent and the members as they were. */
  lemma MarkDisposed(shards: seq<Shard>, pending: int, m: object, i: nat)
    requires Consistent(shards, pending, false, m) && i < ShardCount
    ensures Consistent(shards[i := shards[i].(disposed := true)], pending, false, m)
    ensures Members(shards[i := shards[i].(disposed := true)]) == Members(shards)
  {
    var after := shards[i := shards[i].(disposed := true)];
    PopulationUpdate(shards, i, after[i]);
    assert forall j :: 0 <= j < |shards| ==> after[j].sessions == shards[j].sessions;
  }

  /** `shards` with the first `n` of them disposed. */
  function DisposedUpTo(shards: seq<Shard>, n: nat): (r: seq<Shard>)
    requires n <= |shards|
    ensures |r| == |shards|
    ensures forall j :: 0 <= j < |shards| ==> r[j] == if j < n then shards[j].(disposed := true) else shards[j]
  {
    seq(|shards|, j requires 0 <= j < |shards| => if j < n then shards[j].(disposed := true) else shards[j])
  }

  lemma DisposedStep(shards: seq<Shard>, n: nat)
    requires n < |shards|
    ensures DisposedUpTo(shards, n)[n := shards[n].(disposed := true)] == DisposedUpTo(shards, n + 1)
  {
  }

  lemma AllDisposed(shards: seq<Shard>, pending: int, m: object)
    requires Consistent(shards, pending, false, m) && forall i :: 0 <= i < |shards| ==> shards[i].disposed
    ensures Consistent(shards, pending, true, m)
  {
  }

  /** Each member of `shards` is stored in the shard its id selects, under its id; shard `i`
      holds only sessions whose ids select it. */
  lemma MembersRouted(shards: seq<Shard>, m: object, i: nat)
    requires |shards| == ShardCount && Routed(shards, m) && i < ShardCount
    ensures forall t :: t in Members(shards) && t.id % ShardCount == i ==>
      t.id in shards[i].sessions && shards[i].sessions[t.id] == t
    ensures forall id :: id in shards[i].sessions ==> id % ShardCount == i && shards[i].sessions[id].id == id
  {
    assert Fits(shards[i], i, m);
    forall t | t in Members(shards) && t.id % ShardCount == i
      ensures t.id in shards[i].sessions && shards[i].sessions[t.id] == t
    {
      var j, id :| 0 <= j < |shards| && id in shards[j].sessions && t == shards[j].sessions[id];
      assert Fits(shards[j], j, m);
    }
  }

  lemma ShardInMembers(shards: seq<Shard>, i: nat)
    requires i < |shards|
    ensures shards[i].sessions.Values <= Members(shards)
  {
    forall s | s in shards[i].sessions.Values
      ensures s in Members(shards)
    {
      var id :| id in shards[i].sessions && shards[i].sessions[id] == s;
    }
  }

  /** After an admission of the id just issued, every id held is at most that id. */
  lemma IdsAfterAdmit(before: seq<Shard>, after: seq<Shard>, s: Session, bound: nat)
    requires |before| == ShardCount && IdsAtMost(before, bound) && s.id == bound + 1
    requires var i := s.id % ShardCount;
      after == before || after == before[i := before[i].(sessions := before[i].sessions[s.id := s])]
    ensures IdsAtMost(after, s.id)
  {
  }

  /** Replacing one shard changes the population by the difference in that shard's size. */
  lemma {:induction false} PopulationUpdate(shards: seq<Shard>, i: nat, shard: Shard)
    requires i < |shards|
    ensures Population(shards[i := shard]) == Population(shards) - |shards[i].sessions| + |shard.sessions|
    decreases |shards|
  {
    var n := |shards| - 1;
    var after := shards[i := shard];
    assert after[..n] == if i == n then shards[..n] else shards[..n][i := shard];
    if i < n {
      PopulationUpdate(shards[..n], i, shard);
    }
  }

  /** The population is zero exactly when every shard is empty. */
  lemma {:induction false} PopulationZero(shards: seq<Shard>)
    ensures Population(shards) == 0 <==> forall i :: 0 <= i < |shards| ==> shards[i].sessions == map[]
    decreases |shards|
  {
    if shards != [] {
      var n := |shards| - 1;
      PopulationZero(shards[..n]);
      assert forall i :: 0 <= i < n ==> shards[..n][i] == shards[i];
    }
  }

  /** A session offered to a disposed manager is closed without being admitted, and its
      close task deletes it all the same: as written, the counter drops below zero. */
  method RejectedSessionUnderflow() returns (m: Manager)
    ensures m.pending == -1
  {
    m := new Manager();
    m.Dispose();
    var gen := new IdGenerator();
    var codec := new Codec(false);
    var session := m.NewSession(gen, codec, 0);
    m.DelSessionAsWritten(session);
  }

  /** The same sequence of steps with the corrected deletion leaves the counter at zero. */
  method RejectedSessionBalanced() returns (m: Manager)
    ensures m.pending == 0 && m.Valid()
  {
    m := new Manager();
    m.Dispose();
    var gen := new IdGenerator();
    var codec := new Codec(false);
    var session := m.NewSession(gen, codec, 0);
    m.DelSession(session);
  }

  /** A session created after `Dispose` is already closed: sending on it fails at once. */
  method AdmissionAfterDispose() returns (err: Error, codec: Codec)
    ensures err == SessionClosedError && codec.closeCalls == 1
  {
    var m := new Manager();
    m.Dispose();
    var gen := new IdGenerator();
    codec := new Codec(false);
    var session := m.NewSession(gen, codec, 0);
    err := session.Send("m", Nil);
  }

  /** `Dispose` closes the codec of a session it holds, and hands the session's queued
      messages to a codec with the extension. */
  method DisposeClosesCodec() returns (codec: Codec)
    ensures codec.closeCalls >= 1 && ["m"] in codec.cleared
  {
    var m := new Manager();
    var gen := new IdGenerator();
    codec := new Codec(true);
    var session := m.NewSession(gen, codec, 1);
    var err := session.Send("m", Nil);
    var i := session.id % ShardCount;
    assert m.shards[i].sessions[session.id] == session;
    assert session in Members(m.shards[..]);
    ghost var before := RecordOf(session);
    assert !before.state.closed && before.state.queue == ["m"] && session.buffered && codec.clearsSendChan;
    m.Dispose();
    assert ClosedSince(session, before);
    assert session.queue == ["m"] && session.queue in codec.cleared[|before.cleared|..];
  }
}
