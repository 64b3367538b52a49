/** A session: one connection's close state machine, its send path (direct or through a
    bounded queue drained by a send loop), and its ordered list of close callbacks. */
module Sessions {
  import opened LinkTypes

  /** The codec a session owns. Its behaviour is outside this model: every result it
      produces is supplied by the caller as a parameter. The object records what the
      session handed to it, so that contracts can say what reached the codec. */
  class Codec {
    /** Messages passed to `Send`, in call order. */
    var sent: seq<Msg>
    /** Number of `Receive` calls. */
    var receives: nat
    /** Number of `Close` calls. */
    var closeCalls: nat
    /** Whether this codec implements the optional queue-drain extension (`ClearSendChan`). */
    const clearsSendChan: bool
    /** The closed send queues handed to the extension, in call order. */
    var cleared: seq<seq<Msg>>

    constructor (clearsSendChan: bool)
      ensures this.clearsSendChan == clearsSendChan
      ensures sent == [] && receives == 0 && closeCalls == 0 && cleared == []
    {
      this.clearsSendChan := clearsSendChan;
      sent, receives, closeCalls, cleared := [], 0, 0, [];
    }

    method Send(msg: Msg, outcome: Error) returns (err: Error)
      modifies this
      ensures sent == old(sent) + [msg] && err == outcome
      ensures receives == old(receives) && closeCalls == old(closeCalls) && cleared == old(cleared)
    {
      sent := sent + [msg];
      err := outcome;
    }

    method Receive(incoming: Msg, outcome: Error) returns (msg: Msg, err: Error)
      modifies this
      ensures msg == incoming && err == outcome
      ensures receives == old(receives) + 1
      ensures sent == old(sent) && closeCalls == old(closeCalls) && cleared == old(cleared)
    {
      receives := receives + 1;
      msg, err := incoming, outcome;
    }

    method Close(outcome: Error) returns (err: Error)
      modifies this
      ensures closeCalls == old(closeCalls) + 1 && err == outcome
      ensures sent == old(sent) && receives == old(receives) && cleared == old(cleared)
    {
      closeCalls := closeCalls + 1;
      err := outcome;
    }

    method ClearSendChan(queue: seq<Msg>)
      requires clearsSendChan
      modifies this
      ensures cleared == old(cleared) + [queue]
      ensures sent == old(sent) && receives == old(receives) && closeCalls == old(closeCalls)
    {
      cleared := cleared + [queue];
    }
  }

  /** The process-wide session id counter, owned by a context object instead of a global. */
  class IdGenerator {
    /** The most recently issued id; 0 before the first one. */
    var last: nat

    constructor ()
      ensures last == 0
    {
      last := 0;
    }

    /** Issues the next id: strictly larger than every id issued before. */
    method Next() returns (id: nat)
      modifies this
      ensures id == old(last) + 1 && last == id
    {
      last := last + 1;
      id := last;
    }
  }

  /** A node of a session's close-callback list. */
  class CallbackNode {
    const handler: Handler
    const key: Key
    const func: Func
    var next: CallbackNode?
    /** The session whose list this node belongs to; it keeps the lists of distinct
        sessions apart. */
    ghost const owner: Session

    constructor (handler: Handler, key: Key, func: Func, ghost owner: Session)
      ensures Entry() == CloseCallback(handler, key, func)
      ensures next == null && this.owner == owner
    {
      this.handler, this.key, this.func := handler, key, func;
      this.owner := owner;
      next := null;
    }

    function Entry(): CloseCallback {
      CloseCallback(handler, key, func)
    }
  }

  /** The part of a session's state that the callback list does not cover. */
  datatype SendState = SendState(closed: bool, queue: seq<Msg>, queueClosed: bool, teardownPending: bool)

  class Session {
    const id: nat
    const codec: Codec
    /** The manager that created the session, or null for a client session. */
    const manager: object?
    /** True when the session was created with a positive queue size: sends are
        queued and a send loop forwards them. */
    const buffered: bool
    /** The requested queue size; the queue's capacity when `buffered`. */
    const sendChanSize: int

    /** The messages waiting in the send queue, oldest first. */
    var queue: seq<Msg>
    /** Whether the send queue has been closed. */
    var queueClosed: bool
    /** The close flag; its closing also stands for the close signal the send loop watches. */
    var closed: bool
    /** Set by the first `Close`: the detached close task (callbacks, then manager
        bookkeeping) has been started and has not run yet. */
    var teardownPending: bool

    var first: CallbackNode?
    var last: CallbackNode?

    /** The list's nodes in link order, and the entries they hold. */
    ghost var Nodes: seq<CallbackNode>
    ghost var Callbacks: seq<CloseCallback>
    ghost var Repr: set<object>

    ghost predicate Valid()
      reads this, Repr
    {
      && this in Repr
      && ListValid()
      && QueueValid()
    }

    /** The callback list: `Repr` is this session and its nodes, linked in the order of
        `Nodes`, which hold `Callbacks`. */
    ghost predicate ListValid()
      reads this, Repr
    {
      && OwnedBy(Repr, this)
      && (forall i :: 0 <= i < |Nodes| ==> Nodes[i] in Repr)
      && Holds(Nodes, Callbacks, this)
      && Linked(Nodes)
      && Distinct(Nodes)
      && first == (if Nodes == [] then null else Nodes[0])
      && last == (if Nodes == [] then null else Nodes[|Nodes| - 1])
    }

    /** The send queue and the flags: the queue exists only in buffered mode and never
        outgrows its capacity; a closed queue or a pending teardown means a closed session. */
    ghost predicate QueueValid()
      reads this
    {
      && (buffered <==> sendChanSize > 0)
      && (buffered ==> |queue| <= sendChanSize)
      && (!buffered ==> queue == [] && !queueClosed)
      && (queueClosed ==> closed)
      && (teardownPending ==> closed)
    }

    ghost function State(): SendState
      reads this
    {
      SendState(closed, queue, queueClosed, teardownPending)
    }

    /** Creates an open session with an empty callback list. A positive `sendChanSize`
        selects buffered sending; its send loop is driven by `SendLoop`. */
    constructor (id: nat, codec: Codec, manager: object?, sendChanSize: int)
      ensures Valid() && fresh(Repr)
      ensures this.id == id && this.codec == codec && this.manager == manager
      ensures this.sendChanSize == sendChanSize && buffered == (sendChanSize > 0)
      ensures State() == SendState(false, [], false, false) && Callbacks == []
    {
      this.id, this.codec, this.manager := id, codec, manager;
      this.sendChanSize := sendChanSize;
      buffered := sendChanSize > 0;
      queue, queueClosed, closed, teardownPending := [], false, false, false;
      first, last := null, null;
      Nodes, Callbacks := [], [];
      Repr := {this};
    }

    function IsClosed(): bool
      reads this
    {
      closed
    }

    /** The effects of a first `Close` since the earlier state: the session is closed and
        its close task started, the send queue (if any) is closed and handed to a codec
        that clears it, and the codec has been closed once. */
    twostate predicate ClosedNow()
      reads this, codec
    {
      && closed && teardownPending && queueClosed == buffered
      && codec.closeCalls == old(codec.closeCalls) + 1
      && codec.cleared == old(codec.cleared) + (if buffered && codec.clearsSendChan then [queue] else [])
    }

    /** The first call closes the session and returns the codec's close result
        (`codecResult`); every later call returns `SessionClosedError` and changes nothing. */
    method Close(codecResult: Error) returns (err: Error)
      modifies this, codec
      ensures closed && Callbacks == old(Callbacks) && Nodes == old(Nodes) && Repr == old(Repr)
      ensures first == old(first) && last == old(last)
      ensures old(Valid()) ==> Valid()
      ensures old(closed) ==> err == SessionClosedError && State() == old(State())
      ensures old(closed) ==> unchanged(codec)
      ensures !old(closed) ==> err == codecResult && teardownPending && queue == old(queue)
      ensures !old(closed) ==> queueClosed == (buffered || old(queueClosed))
      ensures !old(closed) ==> codec.closeCalls == old(codec.closeCalls) + 1
      ensures !old(closed) ==> codec.sent == old(codec.sent) && codec.receives == old(codec.receives)
      ensures !old(closed) ==> codec.cleared == old(codec.cleared) + (if buffered && codec.clearsSendChan then [queue] else [])
    {
      if closed {
        return SessionClosedError;
      }
      closed := true;
      if buffered {
        queueClosed := true;
        if codec.clearsSendChan {
          codec.ClearSendChan(queue);
        }
      }
      err := codec.Close(codecResult);
      teardownPending := true;
    }

    /** Returns what the codec returns; a codec error closes the session. */
    method Receive(incoming: Msg, codecErr: Error) returns (msg: Msg, err: Error)
      requires Valid()
      modifies this, codec
      ensures Valid() && Callbacks == old(Callbacks) && Repr == old(Repr)
      ensures msg == incoming && err == codecErr
      ensures closed == (old(closed) || codecErr != Nil)
      ensures codecErr == Nil || old(closed) ==>
        State() == old(State()) && codec.closeCalls == old(codec.closeCalls) && codec.cleared == old(codec.cleared)
      ensures !old(closed) && codecErr != Nil ==> ClosedNow() && queue == old(queue)
      ensures codec.sent == old(codec.sent) && codec.receives == old(codec.receives) + 1
    {
      msg, err := codec.Receive(incoming, codecErr);
      if err != Nil {
        var _ := Close(Nil);
      }
    }

    /** Unbuffered: writes through the codec; a codec error closes the session and is
        returned. Buffered: appends to the queue when there is room, otherwise closes the
        session and reports `SessionBlockedError`. Either way a closed session answers
        `SessionClosedError` and nothing else happens. */
    method Send(msg: Msg, codecErr: Error) returns (err: Error)
      requires Valid()
      modifies this, codec
      ensures Valid() && Callbacks == old(Callbacks) && Repr == old(Repr)
      ensures old(closed) ==> err == SessionClosedError && State() == old(State()) && unchanged(codec)
      ensures !old(closed) && !buffered ==>
        && err == codecErr
        && codec.sent == old(codec.sent) + [msg]
        && (closed <==> codecErr != Nil)
        && (codecErr == Nil ==>
              State() == old(State()) && codec.closeCalls == old(codec.closeCalls) && codec.cleared == old(codec.cleared))
        && (codecErr != Nil ==> ClosedNow())
      ensures !old(closed) && buffered && |old(queue)| < sendChanSize ==>
        && err == Nil
        && State() == old(State()).(queue := old(queue) + [msg])
        && unchanged(codec)
      ensures !old(closed) && buffered && |old(queue)| >= sendChanSize ==>
        && err == SessionBlockedError
        && ClosedNow() && queue == old(queue)
        && codec.sent == old(codec.sent)
    {
      if !buffered {
        if closed {
          return SessionClosedError;
        }
        err := codec.Send(msg, codecErr);
        if err != Nil {
          var _ := Close(Nil);
        }
        return;
      }
      if closed {
        return SessionClosedError;
      }
      if |queue| < sendChanSize {
        queue := queue + [msg];
        return Nil;
      }
      var _ := Close(Nil);
      err := SessionBlockedError;
    }

    /** The send loop, run until it would block: it forwards queued messages to the codec
        oldest first, consuming one codec outcome per message from `outcomes`, and stops
        (closing the session) at the first codec error. It stops without forwarding once
        the session is closed, and stops waiting when the queue is empty or no further
        codec outcome is supplied. */
    method SendLoop(outcomes: seq<Error>) returns (forwarded: seq<Msg>)
      requires Valid() && buffered
      modifies this, codec
      ensures Valid() && Callbacks == old(Callbacks) && Repr == old(Repr)
      ensures |forwarded| <= |old(queue)| && |forwarded| <= |outcomes|
      ensures forwarded == old(queue)[..|forwarded|] && queue == old(queue)[|forwarded|..]
      ensures codec.sent == old(codec.sent) + forwarded
      ensures old(closed) ==> forwarded == [] && State() == old(State()) && unchanged(codec)
      ensures forall j :: 0 <= j < |forwarded| - 1 ==> outcomes[j] == Nil
      ensures !old(closed) ==> (closed <==> |forwarded| > 0 && outcomes[|forwarded| - 1] != Nil)
      ensures !closed ==> |forwarded| == |old(queue)| || |forwarded| == |outcomes|
      ensures !old(closed) && closed ==> ClosedNow()
      ensures !closed ==> State() == old(State()).(queue := queue)
      ensures !closed ==> codec.closeCalls == old(codec.closeCalls) && codec.cleared == old(codec.cleared)
    {
      forwarded := [];
      if closed {
        return;
      }
      while !closed && queue != [] && |forwarded| < |outcomes|
        invariant Valid() && Callbacks == old(Callbacks) && Repr == old(Repr)
        invariant |forwarded| <= |old(queue)| && |forwarded| <= |outcomes|
        invariant forwarded == old(queue)[..|forwarded|] && queue == old(queue)[|forwarded|..]
        invariant codec.sent == old(codec.sent) + forwarded
        invariant forall j :: 0 <= j < |forwarded| - 1 ==> outcomes[j] == Nil
        invariant !old(closed) ==> (closed <==> |forwarded| > 0 && outcomes[|forwarded| - 1] != Nil)
        invariant !old(closed) && closed ==> ClosedNow()
        invariant !closed ==> State() == old(State()).(queue := queue)
        invariant !closed ==> codec.closeCalls == old(codec.closeCalls) && codec.cleared == old(codec.cleared)
        decreases |queue|
      {
        var msg := ForwardHead(outcomes[|forwarded|]);
        forwarded := forwarded + [msg];
      }
    }

    /** One pass of the send loop: takes the oldest queued message and hands it to the
        codec, whose result is `outcome`; a codec error closes the session. */
    method ForwardHead(outcome: Error) returns (msg: Msg)
      requires Valid() && buffered && !closed && queue != []
      modifies this, codec
      ensures Valid() && Callbacks == old(Callbacks) && Repr == old(Repr)
      ensures msg == old(queue[0]) && queue == old(queue[1..])
      ensures codec.sent == old(codec.sent) + [msg]
      ensures closed <==> outcome != Nil
      ensures outcome != Nil ==> ClosedNow()
      ensures outcome == Nil ==>
        && State() == old(State()).(queue := queue)
        && codec.closeCalls == old(codec.closeCalls) && codec.cleared == old(codec.cleared)
    {
      msg := queue[0];
      queue := queue[1..];
      var err := codec.Send(msg, outcome);
      if err != Nil {
        var _ := Close(Nil);
      }
    }

    /** Appends an entry at the tail of the list; does nothing once the session is closed. */
    method AddCloseCallback(handler: Handler, key: Key, func: Func)
      requires Valid()
      modifies Repr
      ensures Valid() && fresh(Repr - old(Repr))
      ensures Callbacks == AfterAdd(old(Callbacks), old(closed), CloseCallback(handler, key, func))
      ensures State() == old(State())
    {
      if closed {
        return;
      }
      var item := new CallbackNode(handler, key, func, this);
      if first == null {
        first := item;
      } else {
        last.next := item;
      }
      last := item;
      ghost var nodes := Nodes;
      assert forall j :: 0 < j < |nodes| ==> nodes[j - 1].next == nodes[j];
      Nodes := Nodes + [item];
      Callbacks := Callbacks + [item.Entry()];
      Repr := Repr + {item};
      AppendedListValid(this, nodes, old(Callbacks), old(Repr), item);
    }

    /** Unlinks the first entry whose (handler, key) matches, repairing `first` and
        `last`; does nothing when there is no match or the session is closed. */
    method RemoveCloseCallback(handler: Handler, key: Key)
      requires Valid()
      modifies Repr
      ensures Valid() && Repr <= old(Repr)
      ensures Callbacks == AfterRemove(old(Callbacks), old(closed), handler, key)
      ensures State() == old(State())
    {
      if closed {
        return;
      }
      var prev: CallbackNode? := null;
      var callback := first;
      ghost var i := 0;
      while callback != null
        invariant 0 <= i <= |Nodes|
        invariant callback == if i < |Nodes| then Nodes[i] else null
        invariant prev == if i == 0 then null else Nodes[i - 1]
        invariant forall j :: 0 <= j < i ==> !Callbacks[j].Matches(handler, key)
        decreases |Nodes| - i
      {
        if callback.handler == handler && callback.key == key {
          FirstMatchIs(Callbacks, handler, key, i);
          Unlink(prev, callback, i);
          return;
        }
        prev, callback := callback, callback.next;
        i := i + 1;
      }
      FirstMatchIs(Callbacks, handler, key, |Callbacks|);
    }

    /** Unlinks `Nodes[i]`, whose predecessor is `prev`, from the list. */
    method Unlink(prev: CallbackNode?, callback: CallbackNode, ghost i: nat)
      requires Valid() && i < |Nodes| && callback == Nodes[i]
      requires prev == if i == 0 then null else Nodes[i - 1]
      modifies this, prev
      ensures Valid() && Repr == old(Repr) - {callback}
      ensures Nodes == old(Nodes[..i] + Nodes[i + 1..]) && Callbacks == old(Callbacks[..i] + Callbacks[i + 1..])
      ensures State() == old(State())
    {
      ghost var nodes := Nodes;
      ghost var callbacks := Callbacks;
      Relink(prev, callback, i);
      Nodes := nodes[..i] + nodes[i + 1..];
      Callbacks := callbacks[..i] + callbacks[i + 1..];
      Repr := Repr - {callback};
      UnlinkedListValid(this, nodes, callbacks, old(Repr), i);
    }

    /** The pointer updates of `Unlink`: `first` or the predecessor's `next` skips
        node i, and `last` falls back to the predecessor when node i was the tail. */
    method Relink(prev: CallbackNode?, callback: CallbackNode, ghost i: nat)
      requires Valid() && i < |Nodes| && callback == Nodes[i]
      requires prev == if i == 0 then null else Nodes[i - 1]
      modifies this`first, this`last, prev
      ensures Linked(Nodes[..i] + Nodes[i + 1..])
      ensures first == if |Nodes| == 1 then null else if i == 0 then Nodes[1] else Nodes[0]
      ensures last == if i == |Nodes| - 1 then prev else Nodes[|Nodes| - 1]
    {
      var next := callback.next;
      assert (first == callback) == (i == 0) && (last == callback) == (i == |Nodes| - 1);
      if first == callback {
        first := next;
      } else {
        prev.next := next;
      }
      if last == callback {
        last := prev;
      }
      assert forall n :: n in Nodes && (i == 0 || n != Nodes[i - 1]) ==> n.next == old(n.next);
    }

    /** The close task has finished: the teardown is no longer pending, and nothing else
        about the session changes. */
    method FinishTeardown()
      requires Valid()
      modifies this
      ensures Valid() && State() == old(State()).(teardownPending := false)
      ensures Callbacks == old(Callbacks) && Nodes == old(Nodes) && Repr == old(Repr)
    {
      teardownPending := false;
    }

    /** Walks the list from `first`, calling each entry once; the returned sequence
        is the calls made, in order. */
    method InvokeCloseCallbacks() returns (fired: seq<CloseCallback>)
      requires Valid()
      ensures fired == Callbacks
    {
      fired := [];
      var callback := first;
      ghost var i := 0;
      while callback != null
        invariant 0 <= i <= |Nodes|
        invariant callback == if i < |Nodes| then Nodes[i] else null
        invariant fired == Callbacks[..i]
        decreases |Nodes| - i
      {
        fired := fired + [callback.Entry()];
        callback := callback.next;
        i := i + 1;
      }
    }
  }

  /** Valid sessions never share list nodes, so updating one session's list leaves every
      other session's list as it was. */
  lemma Separate(a: Session, b: Session)
    requires a.Valid() && b.Valid() && a != b
    ensures a.Repr !! b.Repr
  {
  }

  /** Each node links to the next one and the last node ends the list. */
  ghost predicate Linked(nodes: seq<CallbackNode>)
    reads nodes
  {
    && (forall i :: 0 < i < |nodes| ==> nodes[i - 1].next == nodes[i])
    && (nodes != [] ==> nodes[|nodes| - 1].next == null)
  }

  /** Everything in `repr` other than `s` is a list node of `s`. */
  ghost predicate OwnedBy(repr: set<object>, s: Session) {
    forall o: object :: o in repr && o != s ==> o is CallbackNode && (o as CallbackNode).owner == s
  }

  /** `nodes` belong to `s` and hold the entries `cbs`, position by position. */
  ghost predicate Holds(nodes: seq<CallbackNode>, cbs: seq<CloseCallback>, s: Session) {
    && |nodes| == |cbs|
    && forall i :: 0 <= i < |nodes| ==> nodes[i].owner == s && nodes[i].Entry() == cbs[i]
  }

  lemma HoldsAfterRemove(nodes: seq<CallbackNode>, cbs: seq<CloseCallback>, s: Session, i: nat)
    requires Holds(nodes, cbs, s) && i < |nodes|
    ensures Holds(nodes[..i] + nodes[i + 1..], cbs[..i] + cbs[i + 1..], s)
  {
    var r, c := nodes[..i] + nodes[i + 1..], cbs[..i] + cbs[i + 1..];
    forall j | 0 <= j < |r|
      ensures r[j].owner == s && r[j].Entry() == c[j]
    {
      var j' := if j < i then j else j + 1;
      assert r[j] == nodes[j'] && c[j] == cbs[j'];
    }
  }

  /** The list invariant after `AddCloseCallback` linked a new node at the tail. */
  lemma AppendedListValid(s: Session, nodes: seq<CallbackNode>, callbacks: seq<CloseCallback>, repr: set<object>, item: CallbackNode)
    requires OwnedBy(repr, s) && (forall j :: 0 <= j < |nodes| ==> nodes[j] in repr)
    requires Holds(nodes, callbacks, s) && Distinct(nodes) && item !in repr && item.owner == s
    requires forall j :: 0 < j < |nodes| ==> nodes[j - 1].next == nodes[j]
    requires (nodes != [] ==> nodes[|nodes| - 1].next == item) && item.next == null
    requires s.Nodes == nodes + [item] && s.Callbacks == callbacks + [item.Entry()] && s.Repr == repr + {item}
    requires s.first == (if nodes == [] then item else nodes[0]) && s.last == item
    ensures s.ListValid()
  {
    HoldsSnoc(nodes, callbacks, s, item);
    DistinctSnoc(nodes, item);
  }

  lemma HoldsSnoc(nodes: seq<CallbackNode>, cbs: seq<CloseCallback>, s: Session, item: CallbackNode)
    requires Holds(nodes, cbs, s) && item.owner == s
    ensures Holds(nodes + [item], cbs + [item.Entry()], s)
  {
  }

  lemma DistinctSnoc(nodes: seq<CallbackNode>, item: CallbackNode)
    requires Distinct(nodes) && item !in nodes
    ensures Distinct(nodes + [item])
  {
  }

  /** The list invariant after `Unlink` removed node i: what remains of `nodes`, still
      linked, with `first` and `last` repaired, is again a well-formed list. */
  lemma UnlinkedListValid(s: Session, nodes: seq<CallbackNode>, callbacks: seq<CloseCallback>, repr: set<object>, i: nat)
    requires i < |nodes| && OwnedBy(repr, s) && (forall j :: 0 <= j < |nodes| ==> nodes[j] in repr)
    requires Holds(nodes, callbacks, s) && Distinct(nodes)
    requires s.Nodes == nodes[..i] + nodes[i + 1..] && s.Callbacks == callbacks[..i] + callbacks[i + 1..]
    requires s.Repr == repr - {nodes[i]} && Linked(s.Nodes)
    requires s.first == if |nodes| == 1 then null else if i == 0 then nodes[1] else nodes[0]
    requires s.last == if i == |nodes| - 1 then (if i == 0 then null else nodes[i - 1]) else nodes[|nodes| - 1]
    ensures s.ListValid()
  {
    DistinctAfterRemove(nodes, i);
    HoldsAfterRemove(nodes, callbacks, s, i);
    var r := s.Nodes;
    forall j | 0 <= j < |r|
      ensures r[j] in s.Repr
    {
      var j' := if j < i then j else j + 1;
      assert r[j] == nodes[j'];
    }
  }

  ghost predicate Distinct(nodes: seq<CallbackNode>) {
    forall i, j :: 0 <= i < j < |nodes| ==> nodes[i] != nodes[j]
  }

  lemma DistinctAfterRemove(nodes: seq<CallbackNode>, i: nat)
    requires i < |nodes| && Distinct(nodes)
    ensures Distinct(nodes[..i] + nodes[i + 1..])
    ensures nodes[i] !in nodes[..i] + nodes[i + 1..]
  {
    var r := nodes[..i] + nodes[i + 1..];
    forall j, k | 0 <= j < k < |r|
      ensures r[j] != r[k]
    {
      var j' := if j < i then j else j + 1;
      var k' := if k < i then k else k + 1;
      assert r[j] == nodes[j'] && r[k] == nodes[k'];
    }
    forall n | n in r
      ensures n != nodes[i]
    {
      var j :| 0 <= j < |r| && r[j] == n;
      var j' := if j < i then j else j + 1;
      assert r[j] == nodes[j'];
    }
  }

  // ---------------------------------------------------------------------------
  // The callback list as a value

  /** The index of the first entry matching (h, k), or |cbs| when there is none. */
  function FirstMatch(cbs: seq<CloseCallback>, h: Handler, k: Key): (i: nat)
    ensures i <= |cbs|
    ensures forall j :: 0 <= j < i ==> !cbs[j].Matches(h, k)
    ensures i < |cbs| ==> cbs[i].Matches(h, k)
  {
    if cbs == [] then 0
    else if cbs[0].Matches(h, k) then 0
    else 1 + FirstMatch(cbs[1..], h, k)
  }

  /** `cbs` with its first (h, k) entry deleted, if it has one. */
  function RemoveFirst(cbs: seq<CloseCallback>, h: Handler, k: Key): seq<CloseCallback>
  {
    var i := FirstMatch(cbs, h, k);
    if i == |cbs| then cbs else cbs[..i] + cbs[i + 1..]
  }

  /** The list after an add: unchanged when the session was closed. */
  function AfterAdd(cbs: seq<CloseCallback>, closed: bool, e: CloseCallback): seq<CloseCallback>
  {
    if closed then cbs else cbs + [e]
  }

  /** The list after a remove: unchanged when the session was closed. */
  function AfterRemove(cbs: seq<CloseCallback>, closed: bool, h: Handler, k: Key): seq<CloseCallback>
  {
    if closed then cbs else RemoveFirst(cbs, h, k)
  }

  /** The first index whose entry matches is the one `FirstMatch` names. */
  lemma FirstMatchIs(cbs: seq<CloseCallback>, h: Handler, k: Key, i: nat)
    requires i <= |cbs|
    requires forall j :: 0 <= j < i ==> !cbs[j].Matches(h, k)
    requires i < |cbs| ==> cbs[i].Matches(h, k)
    ensures FirstMatch(cbs, h, k) == i
  {
  }

  /** The entries whose (handler, key) is not (h, k), in list order. */
  function Others(cbs: seq<CloseCallback>, h: Handler, k: Key): seq<CloseCallback>
  {
    if cbs == [] then []
    else if cbs[0].Matches(h, k) then Others(cbs[1..], h, k)
    else [cbs[0]] + Others(cbs[1..], h, k)
  }

  /** The number of entries registered under (h, k). */
  function Count(cbs: seq<CloseCallback>, h: Handler, k: Key): nat
  {
    if cbs == [] then 0
    else (if cbs[0].Matches(h, k) then 1 else 0) + Count(cbs[1..], h, k)
  }

  /** Removing the first match, read one entry at a time: a matching head is dropped and
      the search stops; a non-matching head is kept and the search goes on in the tail. */
  lemma RemoveFirstCons(e: CloseCallback, cbs: seq<CloseCallback>, h: Handler, k: Key)
    ensures RemoveFirst([e] + cbs, h, k) == if e.Matches(h, k) then cbs else [e] + RemoveFirst(cbs, h, k)
  {
    if e.Matches(h, k) {
      assert FirstMatch([e] + cbs, h, k) == 0;
      assert ([e] + cbs)[1..] == cbs;
    } else {
      RemoveFirstSkips(e, cbs, h, k);
    }
  }

  lemma RemoveFirstSkips(e: CloseCallback, cbs: seq<CloseCallback>, h: Handler, k: Key)
    requires !e.Matches(h, k)
    ensures RemoveFirst([e] + cbs, h, k) == [e] + RemoveFirst(cbs, h, k)
  {
    var s := [e] + cbs;
    assert s[1..] == cbs;
    var i := FirstMatch(cbs, h, k);
    assert FirstMatch(s, h, k) == 1 + i;
    if i < |cbs| {
      assert s[..i + 1] == [e] + cbs[..i];
      assert s[i + 2..] == cbs[i + 1..];
      calc {
        RemoveFirst(s, h, k);
        s[..i + 1] + s[i + 2..];
        ([e] + cbs[..i]) + cbs[i + 1..];
        [e] + (cbs[..i] + cbs[i + 1..]);
      }
    } else {
      assert RemoveFirst(s, h, k) == s;
    }
  }

  /** Every entry with another (handler, key) survives a removal, in its old order. */
  lemma {:induction false} RemoveFirstKeepsOthers(cbs: seq<CloseCallback>, h: Handler, k: Key)
    ensures Others(RemoveFirst(cbs, h, k), h, k) == Others(cbs, h, k)
    decreases |cbs|
  {
    if cbs != [] {
      var e, rest := cbs[0], cbs[1..];
      assert cbs == [e] + rest;
      RemoveFirstCons(e, rest, h, k);
      if e.Matches(h, k) {
        assert Others(cbs, h, k) == Others(rest, h, k);
      } else {
        RemoveFirstKeepsOthers(rest, h, k);
        var r := RemoveFirst(rest, h, k);
        assert ([e] + r)[0] == e && ([e] + r)[1..] == r;
      }
    }
  }

  /** A removal takes away exactly one (h, k) entry when there is one, and none otherwise. */
  lemma {:induction false} RemoveFirstCount(cbs: seq<CloseCallback>, h: Handler, k: Key)
    ensures Count(RemoveFirst(cbs, h, k), h, k) == if Count(cbs, h, k) == 0 then 0 else Count(cbs, h, k) - 1
    ensures |RemoveFirst(cbs, h, k)| == if Count(cbs, h, k) == 0 then |cbs| else |cbs| - 1
    decreases |cbs|
  {
    if cbs != [] {
      var e, rest := cbs[0], cbs[1..];
      assert cbs == [e] + rest;
      RemoveFirstCons(e, rest, h, k);
      if !e.Matches(h, k) {
        RemoveFirstCount(rest, h, k);
        var r := RemoveFirst(rest, h, k);
        assert ([e] + r)[0] == e && ([e] + r)[1..] == r;
      }
    }
  }

  /** Adding an entry and then removing its (handler, key) restores the list, provided the
      pair was not registered before: the channel's `Put` followed by `Remove` leaves a
      session's callbacks as they were. */
  lemma {:induction false} RemoveAfterAdd(cbs: seq<CloseCallback>, e: CloseCallback)
    requires Count(cbs, e.handler, e.key) == 0
    ensures RemoveFirst(cbs + [e], e.handler, e.key) == cbs
    decreases |cbs|
  {
    if cbs == [] {
      RemoveFirstCons(e, [], e.handler, e.key);
      assert [e] + [] == [e];
    } else {
      var rest := cbs[1..];
      assert cbs + [e] == [cbs[0]] + (rest + [e]);
      RemoveFirstCons(cbs[0], rest + [e], e.handler, e.key);
      RemoveAfterAdd(rest, e);
    }
  }

  /** A session without a manager, numbered by the next id of `gen`. */
  method NewClientSession(gen: IdGenerator, codec: Codec, sendChanSize: int) returns (session: Session)
    modifies gen
    ensures fresh(session) && session.Valid() && fresh(session.Repr)
    ensures session.id == gen.last == old(gen.last) + 1
    ensures session.codec == codec && session.manager == null
    ensures session.sendChanSize == sendChanSize && session.buffered == (sendChanSize > 0)
    ensures session.State() == SendState(false, [], false, false) && session.Callbacks == []
  {
    var id := gen.Next();
    session := new Session(id, codec, null, sendChanSize);
  }

  /** A buffered session of capacity 2 whose queue is never drained: two sends are
      queued, the third finds the queue full, closes the session and reports it blocked,
      and the fourth finds the session closed. */
  method Backpressure() returns (errs: seq<Error>)
    ensures errs == [Nil, Nil, SessionBlockedError, SessionClosedError]
  {
    var gen := new IdGenerator();
    var codec := new Codec(false);
    var s := NewClientSession(gen, codec, 2);
    var e1 := s.Send("a", Nil);
    var e2 := s.Send("b", Nil);
    var e3 := s.Send("c", Nil);
    var e4 := s.Send("d", Nil);
    errs := [e1, e2, e3, e4];
  }
}
