/** Values shared by every part of the session library: messages, channel keys,
    the errors the library reports, and the entries of a session's close-callback list. */
module LinkTypes {

  /** An application message. The library never inspects messages; it only moves them
      between callers, the send queue and the codec. */
  type Msg = string

  /** A key under which a channel stores a session. */
  type Key = string

  /** The error values the session library returns. `Nil` is the absence of an error;
      `Transport` stands for any error the codec reports, passed through unchanged. */
  datatype Error =
    | Nil
    | SessionClosedError
    | SessionBlockedError
    | Transport(text: string)

  /** The owner half of a close-callback identity. A channel registers its callbacks
      under its own identity; application code may use any other value, which is
      represented by a tag. */
  datatype Handler = ChannelOwner(channel: object) | UserOwner(tag: nat)

  /** The code a close callback runs. The only callback the library itself registers is
      the one a channel installs in `Put`: remove `key` from `channel`. Application
      callbacks are opaque and are identified by a tag. */
  datatype Func = RemoveFromChannel(channel: object, key: Key) | UserFunc(tag: nat)

  /** One entry of a session's close-callback list. */
  datatype CloseCallback = CloseCallback(handler: Handler, key: Key, func: Func)
  {
    /** Removal compares the (handler, key) pair only, never the function. */
    predicate Matches(h: Handler, k: Key) {
      handler == h && key == k
    }
  }
}
