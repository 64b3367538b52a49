# link: sessions, channels and the session manager

This project models the core of `link`, a small Go library for message-oriented network
sessions. The model is written in Dafny.

- A **session** wraps a codec, which encodes, sends, receives and closes messages. It
  sends either directly through the codec or through a bounded send queue, which a send
  loop drains. It closes exactly once. It keeps a singly linked list of close callbacks,
  each identified by a (handler, key) pair.
- Closing a session starts a detached **close task**. The task runs the callbacks in
  registration order and then deletes the session from its manager.
- A **channel** is a keyed group of sessions. `Put` registers a close callback that
  removes the key again, so a closed session drops out of the channel by itself.
- A **manager** spreads its sessions over 32 shards by `id % 32`. It counts the admitted
  sessions in a wait-group counter. `Dispose` disposes every shard once and closes every
  session the shards hold.
- `Accept` retries temporary listener errors. The delay starts at 5 ms, doubles each
  time and never exceeds one second.

The form follows the source.

- Sessions, callback nodes, channels and the manager are classes whose fields the
  methods update in place.
- The callback list is a real linked structure of `CallbackNode` objects. It is mirrored
  by the ghost sequences `Nodes` and `Callbacks` and guarded by a `Repr` footprint.
- The loops of the source are `while`/`for` loops with invariants: the callback search,
  the send loop, the map iterations of channels and of `Dispose`, and the accept loop.
- Each method is proved against a value-level specification: `AfterAdd`, `AfterRemove`,
  `RemoveFirst`, `Unregister`, `EvictedKeys`, `UserCalls`, `DelayAfter`, `Delays` and
  `Settle`. Lemmas prove the properties of those functions.

Files and modules:

- `types.dfy` (`LinkTypes`): messages, keys, errors and callback entries.
- `session.dfy` (`Sessions`): the codec stand-in, the id counter and the session.
- `channel.dfy` (`Channels`): the channel.
- `manager.dfy` (`Managers`): the manager.
- `close_task.dfy` (`CloseTasks`): the detached close task, run as an explicit step.
- `api.dfy` (`Accepting`): `Accept`.

Sessions refer to their manager, and callbacks refer to their channel. Both references
are typed `object` and resolved with `is`, so the modules do not import each other in a
cycle.

`Receive` (session.go:95-105) does not look at the close flag. It returns what the codec
returns, and closes the session only when the codec reports an error. A closed session
therefore still receives. `Sessions.Session.Receive` does the same.

## Model

| member | source | states |
|---|---|---|
| Sessions.IdGenerator.Next | session.go:44 | Each id issued is one more than the previous, so ids are never reused. |
| Sessions.CallbackNode.constructor | session.go:179 | A new list item holds exactly the (handler, key, function) entry and has no successor. |
| Sessions.Session.constructor | session.go:39-53 | A new session is open and valid and has no callbacks. It has an empty send queue, which exists exactly when `sendChanSize > 0`. |
| Sessions.Session.Close | session.go:63-88 | The first call marks the session closed and returns the codec's close result. It closes the send queue and hands it to a `ClearSendChan` codec, calls the codec's `Close` once, and starts the close task. Every later call returns `SessionClosedError` and changes nothing. Validity and the callback list are kept. |
| Sessions.Session.Receive | session.go:95-105 | Returns the codec's message and error unchanged. The session becomes closed exactly when the codec reports an error. On an open session, that error has the full effects of a first `Close` (`ClosedNow`): the codec is closed, the queue is closed and handed off, and the close task starts. Otherwise the state, the codec's close count and its hand-offs are unchanged. Nothing is sent. |
| Sessions.Session.Send | session.go:125-162 | Closed session: `SessionClosedError`, and nothing changes. Unbuffered: the message goes to the codec and its error is returned. A codec error has the full effects of a first `Close`; otherwise the state, the codec's close count and its hand-offs are unchanged. Buffered with room: the message is appended to the queue and `Nil` is returned. Buffered and full: `SessionBlockedError`, with the full effects of a first `Close` and the queue unchanged. |
| Sessions.Session.SendLoop | session.go:108-122 | The loop forwards a prefix of the queue to the codec, in order, and leaves the rest queued. It stops on the first codec error, and the deferred `Close` then takes full effect (`ClosedNow`). A closed session forwards nothing and leaves the codec untouched. While the session stays open, only the queue changes, the codec is neither closed nor handed anything, and the loop stops only when the queue or the codec's answers run out. |
| Sessions.Session.ForwardHead | session.go:114-117 | One loop step. The queue's head goes to the codec and leaves the queue. The session closes exactly when the codec fails, with the full effects of a first `Close`. Otherwise only the queue changes. |
| Sessions.Session.AddCloseCallback | session.go:171-187 | The entry is appended at the end of the list, or ignored when the session is closed. Validity is kept, and only new nodes join the footprint. |
| Sessions.Session.RemoveCloseCallback | session.go:189-211 | Only the first entry matching (handler, key) is unlinked; a closed session ignores the call. Validity is kept. |
| Sessions.Session.Unlink | session.go:200-207 | The i-th node leaves the list and the footprint. All other nodes and entries keep their order. |
| Sessions.Session.Relink | session.go:200-207 | Relinking around the i-th node leaves a properly linked list. `first` and `last` are fixed up exactly when the node was the head or the tail. |
| Sessions.Session.FinishTeardown | session.go:78-84 | The end of the close task. Only the pending-teardown mark is cleared. |
| Sessions.Session.InvokeCloseCallbacks | session.go:213-220 | The callbacks visited are exactly the list's entries, in registration order. |
| Sessions.Separate | session.go:179-186 | Two distinct valid sessions own disjoint callback nodes. Changing one session's list never touches another's. |
| Sessions.FirstMatch | session.go:198-199 | The index found is that of the first entry matching (handler, key); no earlier entry matches. |
| Sessions.FirstMatchIs | session.go:198-199 | An index with no match before it and a match at it is the first match. |
| Sessions.RemoveFirstCons | session.go:198-209 | Removal from a list whose head matches drops the head. Otherwise the head is kept and removal continues in the rest. |
| Sessions.RemoveFirstSkips | session.go:198-209 | A non-matching head is kept in front of the removal from the rest. |
| Sessions.RemoveFirstKeepsOthers | session.go:198-209 | Removal keeps every entry for another (handler, key) pair, in order. |
| Sessions.RemoveFirstCount | session.go:198-210 | Removal drops exactly one matching entry when there is one, and changes nothing otherwise. |
| Sessions.RemoveAfterAdd | session.go:171-211 | Removing (h, k) right after adding an (h, k) entry restores the list, when no earlier entry matched (h, k). |
| Sessions.NewClientSession | session.go:34-53 | A client session (no manager) takes the next id of the global counter. It starts open and valid, with no callbacks, and is buffered exactly when `sendChanSize > 0`. |
| Sessions.Backpressure | session.go:125-162 | With a queue of capacity 2 that is never drained, sends return `Nil`, `Nil`, `SessionBlockedError`, `SessionClosedError`. |
| Channels.Channel.constructor | channel.go:19-23 | A new channel holds no sessions. |
| Channels.Channel.Len | channel.go:26-30 | The number of keys held; zero exactly when the channel is empty. |
| Channels.Channel.Get | channel.go:42-47 | Returns the session stored under the key, or null exactly when the key is absent. |
| Channels.Channel.Fetch | channel.go:33-39 | The callback runs once per stored session, each key visited exactly once. The channel is unchanged. |
| Channels.Channel.Put | channel.go:50-62 | The map stores the new session under the key. The previous holder of the key, if any, loses this channel's callback for the key, and the new session gains one, unless the session is closed. Sessions' states are unchanged. |
| Channels.Channel.Rebind | channel.go:53-61 | Re-putting the session already under the key keeps the map. One (channel, key) callback is removed and a fresh one appended. |
| Channels.Channel.Replace | channel.go:53-61 | Putting a different session evicts the old one. The old one loses its callback, stays valid and is not closed. The new one is stored and gains the callback. |
| Channels.Channel.AddEntry | channel.go:57-61 | The key maps to the session, which gains the channel's removal callback for that key. |
| Channels.Channel.RemoveEntry | channel.go:65-69 | The key leaves the map, and its session loses the channel's callback for the key. |
| Channels.Channel.Remove | channel.go:72-80 | Reports whether the key was present. The key is gone afterwards, and a removed session loses its callback for the key. |
| Channels.Channel.FetchAndRemove | channel.go:83-93 | Every stored session is visited once under its key, and the channel ends empty. Each member lost this channel's callback once for each of its keys. |
| Channels.Channel.Close | channel.go:96-102 | The channel ends empty. Each member lost this channel's callback once for each key it was stored under, and nothing else about it changed. |
| Channels.Channel.DrainOne | channel.go:86-89 | One iteration step. The key leaves the map, its session is unregistered for it, and the iteration's progress advances by exactly that key. |
| Channels.ProgressDone | channel.go:86 | A finished map iteration has visited every key of the map exactly once. |
| CloseTasks.EvictedKeysExact | session.go:217-218 | Running a callback list removes key k from a channel exactly when some entry is that channel's removal callback for k. |
| CloseTasks.UserCallsExact | session.go:217-218 | An application callback runs exactly when it is in the list. |
| CloseTasks.UserCallsCount | session.go:217-218 | Application callbacks run once per entry: as many calls as application entries. |
| CloseTasks.DepartsSparesOthers | channel.go:57-59 | The corrected channel callback removes only keys still held by the closing session. Every entry of another session survives unchanged. |
| CloseTasks.Fire | channel.go:57-59 | The corrected single callback. An application callback is called; a channel callback removes its key only while it still maps to the closing session. All sessions stay valid, with state and callbacks unchanged. |
| CloseTasks.FireAsWritten | channel.go:57-59 | The callback as written: a channel callback removes its key whatever session the key now maps to. The evicted session loses that channel's callback for the key (channel.go:77, session.go:189-211). Every other session's list is unchanged. |
| CloseTasks.Evict | channel.go:72-80 | The key leaves the channel. The session stored there loses the channel's callback for the key, and every other session is left as it was. |
| CloseTasks.FireAll | session.go:213-220 | Running the whole list makes exactly the application calls of `UserCalls`. Each channel loses exactly the closing session's keys named by the removal callbacks. |
| CloseTasks.FireNext | session.go:217-218 | One step of the walk. After callback i, each channel has lost the closing session's keys named by callbacks 0 to i. |
| CloseTasks.RunCallbacks | session.go:79 | Running the list uses the callback list as it stood at close. It clears the pending-teardown mark and leaves every other session as it was. |
| CloseTasks.RunCloseTask | session.go:78-84 | The close task runs the callbacks (effects as in `FireAll`) and then the manager's deletion. The session leaves its shard, the counter drops by one exactly when the shard held it, and the manager stays consistent. |
| CloseTasks.SelfCleanup | channel.go:57-59 | A session put under a key and then closed leaves the channel once its close task runs: `Get` is null and `Len` is 0. |
| CloseTasks.ClosedMemberStays | channel.go:61 | A session already closed when `Put` stores it gets no callback (session.go:172-174). It is still in the channel after its close task. |
| CloseTasks.StaleCallbackEvictsSuccessor | channel.go:57-59 | As written, a closed session's pending close task removes its key from a channel even after `Put` stored an open session under that key. |
| CloseTasks.StaleCallbackSparesSuccessor | channel.go:57-59 | With the corrected callback, the same steps leave the open successor in the channel. |
| Managers.Manager.constructor | manager.go:22-28 | A new manager has 32 empty live shards, a zero counter, and has not been disposed. |
| Managers.Manager.GetSession | manager.go:57-64 | Looking in shard `id % 32` finds the session with that id exactly when some shard holds one, and null otherwise. |
| Managers.Manager.NewSession | manager.go:50-54 | A fresh session gets the next id and is buffered exactly when `sendChanSize > 0`. If its shard is live, it is stored there and counted, and the codec is untouched. If its shard is disposed, it comes back closed, its codec has been closed once and handed the empty queue when it has the extension, and the manager is unchanged. |
| Managers.Manager.PutSession | manager.go:67-81 | Admission stores the session in its shard and adds one to the counter, leaving the session and its codec untouched. In a disposed shard, the session is closed instead (`Closing`), nothing is counted, and an open session's codec is closed once and handed the queue when it has the extension. |
| Managers.Manager.DelSession | manager.go:84-93 | Corrected deletion. The id leaves its shard, and the counter drops by one exactly when the shard held it, so the counter keeps equal to the population. |
| Managers.Manager.DelSessionAsWritten | manager.go:84-93 | Deletion as written. The id leaves its shard and the counter always drops by one. |
| Managers.Manager.Dispose | manager.go:31-47 | The first call disposes every shard and closes every session held (`Closing`): each member open before is marked closed, its queue closed and handed to a codec with the extension, its codec's `Close` called, and its close task started. Later calls change nothing, neither the sessions nor their codecs. The counter is not changed. |
| Managers.Manager.DisposeOnce | manager.go:32-46 | The one-shot body. Every shard becomes disposed and every member goes through `Close`, codec included. |
| Managers.Manager.DisposeAll | manager.go:33-43 | The shard loop as a whole. All 32 shards are disposed, and every member has been closed since the loop began, codec included. |
| Managers.Manager.DisposeShards | manager.go:33-43 | Shard after shard: the first i shards are disposed and their members closed, codecs included; the others are untouched. |
| Managers.Manager.DisposeShard | manager.go:35-42 | Shard i is disposed and its members are closed, codecs included. Members of later shards are untouched. |
| Managers.Manager.CloseShardMembers | manager.go:39-41 | Every session of the shard is closed once, in the map's iteration order, with its codec closed. |
| Managers.Manager.CloseMember | manager.go:40 | Closing one member closes its codec and hands off its queue. Every other member is left as it was; a codec it shares only gains close calls and hand-offs. |
| Managers.Manager.IdleIffEmpty | manager.go:45 | The wait-group counter is zero exactly when no shard holds a session. |
| Managers.HandOffsKept | session.go:70-72 | Hand-offs only append, so a queue handed to a codec stays among its hand-offs when later sessions sharing the codec close. |
| Managers.Admit | manager.go:78-80 | Storing a session in its shard and adding one to the counter keeps every session routed by id and the counter equal to the population. |
| Managers.Delete | manager.go:90-92 | Deleting an id and subtracting one only when it was present keeps the manager consistent. |
| Managers.MarkDisposed | manager.go:37 | Setting a shard's disposed flag keeps the manager consistent and its members as they were. |
| Managers.MembersRouted | manager.go:58 | Every member sits in shard `id % 32`, stored under its own id. |
| Managers.IdsAfterAdmit | manager.go:78 | After admitting the id just issued, every stored id is at most the latest id. |
| Managers.PopulationUpdate | manager.go:78-92 | Replacing one shard changes the population by exactly the change in that shard's size. |
| Managers.PopulationZero | manager.go:45 | The population is zero exactly when every shard is empty. |
| Managers.AdmissionAfterDispose | manager.go:73-76 | A session created after `Dispose` is already closed, its codec has been closed once, and sending on it returns `SessionClosedError`. |
| Managers.DisposeClosesCodec | manager.go:39-41 | `Dispose` closes the codec of a session it holds and hands the session's queued message to a codec with the extension. |
| Managers.RejectedSessionUnderflow | manager.go:84-93 | As written, a session rejected by a disposed manager and then deleted drives the counter to -1. |
| Managers.RejectedSessionBalanced | manager.go:84-93 | With the corrected deletion, the same steps leave the counter at 0 and the manager consistent. |
| Accepting.ContainsExact | api.go:85 | `Contains` holds exactly when the text occurs at some position, as substring search promises. |
| Accepting.DelayClosedForm | api.go:74-81 | After k temporary errors the delay is min(5 ms · 2^(k-1), 1 s). |
| Accepting.DelayBounds | api.go:74-81 | Every delay lies between 5 ms and 1 s. |
| Accepting.DelayGrows | api.go:77-81 | The delays never decrease. |
| Accepting.DelayCapped | api.go:79-81 | From the ninth temporary error in a row on, the delay is exactly 1 s. |
| Accepting.DelaysAre | api.go:82 | The i-th sleep is the delay after i + 1 temporary errors. |
| Accepting.FirstSettled | api.go:70-73 | The answer that ends the loop is the first one that is not a temporary error. Every earlier answer was temporary. |
| Accepting.SettleErrors | api.go:85-88 | A final error becomes end of input exactly when its text contains "use of closed network connection". Any other error is returned unchanged. |
| Accepting.Accept | api.go:68-91 | The loop returns the result of the first non-temporary answer: the connection, end of input, or the error. Before it, it sleeps exactly the capped doubling delays, one per temporary error. |

## Left out

- Concurrency is not modelled: goroutines, mutexes, atomics and the `select` between the
  send queue and the close signal. The detached close task (session.go:78-84) is the
  separate step `CloseTasks.RunCloseTask`. The send loop is a drain step given the codec's
  answers, in which the close signal wins once the session is closed.
- The codec is a stand-in that records what it was given: sent messages, close calls and
  hand-offs to `ClearSendChan`. Its results come in as parameters. codec/json.go is not
  part of this model.
- Messages and channel keys are strings. Application handler values and callbacks are
  numbered tags. A connection is a number. In the source, keys and handlers are
  `interface{}` values compared by dynamic type and value. A key that cannot be compared
  makes the map insertion at channel.go:61 panic, which the model does not capture.
- Sessions.IdGenerator.Next: ids are unbounded integers; the 64-bit wrap-around of the
  global counter is not modelled, since it cannot be reached.
- Sessions.Session.IsClosed: a plain read of the close flag. It carries no contract; its
  effect shows in the contracts of `Send`, `AddCloseCallback` and `RemoveCloseCallback`.
- The `State` fields of sessions and channels, and the `ID` and `Codec` getters, hold or
  return a value without logic, and are left out.
- Channels.Channel.Fetch, Channels.Channel.FetchAndRemove: the application callback is
  represented by the sequence of sessions it is called with. What it does is not modelled.
- Managers.Manager.Dispose: states that each member's codec close count grew, not that it
  grew by exactly one, because sessions may share a codec and each close adds a call.
- Managers.Manager.Dispose: `WaitGroup.Wait` is not modelled as blocking.
  `Managers.Manager.IdleIffEmpty` states when the wait ends: once the close tasks have
  deleted every session.
- Accepting.Accept: `time.Sleep` is recorded as the sequence of delays. The listener is
  the sequence of its answers. The method requires that a non-temporary answer eventually
  comes; the source would retry forever otherwise.
- CloseTasks.RunCloseTask: modelled with the corrected channel callback `CloseTasks.Fire`
  and the corrected deletion `Managers.Manager.DelSession` (see Findings). The as-written
  halves are `CloseTasks.FireAsWritten` and `Managers.Manager.DelSessionAsWritten`.
- CloseTasks.FireAll, CloseTasks.FireNext and CloseTasks.RunCallbacks: each runs the
  corrected callback `CloseTasks.Fire`, not the callback as written.
- server.go, struct.go, `Listen`, `Dial`, `DialTimeout`, `Protocol` and the example
  program are not part of this model. The client-session constructor `NewSession`
  (session.go:34-36) is `Sessions.NewClientSession`. `Sessions.Session.constructor`
  takes the id from its caller, which must draw it from `IdGenerator`.
- Channel self-cleanup holds only for sessions that are open when `Put` stores them. A
  session already closed is stored without a callback and stays in the channel after
  its close task (`CloseTasks.ClosedMemberStays`). The model keeps this behaviour of
  the source.

## Findings

| source | as written | input that shows it | evidently intended | confidence | as-written member | corrected member |
|---|---|---|---|---|---|---|
| manager.go:84-93 | `delSession` always calls `disposeWait.Done()`. A session rejected by a disposed shard (manager.go:73-76) was never counted in, yet its close task still deletes it. | `NewManager()`, `Dispose()`, `NewSession(codec, 0)`: the counter goes from 0 to -1, and a Go `WaitGroup` panics on a negative counter. | Decrement only when the shard held the session, so the counter always equals the number of sessions held. | not executed | Managers.Manager.DelSessionAsWritten (shown by Managers.RejectedSessionUnderflow) | Managers.Manager.DelSession (proved by Managers.RejectedSessionBalanced and Managers.Delete) |
| channel.go:57-59 | The callback `Put` registers calls `channel.Remove(key)`, which removes whatever session the key holds when the callback runs. | Session A stored under "k" is closed, and its close task is still pending. `Put("k", B)` stores an open B (A ignores the callback removal because it is closed). A's close task then removes "k", evicting B. | Remove the key only while it still maps to the closing session. | not executed | CloseTasks.FireAsWritten (shown by CloseTasks.StaleCallbackEvictsSuccessor) | CloseTasks.Fire (proved by CloseTasks.StaleCallbackSparesSuccessor and CloseTasks.DepartsSparesOthers) |
