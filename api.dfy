/** Accepting connections from a listener, retrying temporary errors with a delay that
    starts at 5 milliseconds, doubles on each further temporary error and never exceeds
    one second. Durations are in nanoseconds, the unit of the program's durations. */
module Accepting {

  const Millisecond: nat := 1_000_000
  const Second: nat := 1000 * Millisecond
  /** The delay after the first temporary error. */
  const InitialDelay: nat := 5 * Millisecond
  /** No delay is longer than this. */
  const MaxDelay: nat := Second
  /** The text by which an accept error on a closed listener is recognised. */
  const ClosedText: string := "use of closed network connection"

  /** A listener error: its text, and whether it is a network error that reports itself
      as temporary. */
  datatype ListenError = ListenError(text: string, temporary: bool)

  /** One answer of the listener: a connection (named by a number) or an error. */
  datatype Outcome = Accepted(conn: nat) | Failed(err: ListenError)
  {
    predicate Retried() {
      Failed? && err.temporary
    }
  }

  /** What `Accept` returns: the connection, end of input (the listener was closed), or
      the listener's error itself. */
  datatype AcceptResult = Conn(conn: nat) | EOF | Err(err: ListenError)

  /** Whether `sub` occurs in `s`. */
  function Contains(s: string, sub: string): bool
    decreases |s|
  {
    if |sub| <= |s| && s[..|sub|] == sub then true
    else if s == [] then false
    else Contains(s[1..], sub)
  }

  /** `sub` occurs in `s` starting at position `i`. */
  predicate OccursAt(s: string, sub: string, i: nat) {
    i + |sub| <= |s| && s[i..i + |sub|] == sub
  }

  /** `sub` occurs in `s` exactly when it occurs at some position of `s`. */
  lemma {:induction false} ContainsExact(s: string, sub: string)
    ensures Contains(s, sub) <==> exists i: nat :: OccursAt(s, sub, i)
    decreases |s|
  {
    if |sub| <= |s| && s[..|sub|] == sub {
      assert OccursAt(s, sub, 0);
    } else if s == [] {
    } else {
      ContainsExact(s[1..], sub);
      if exists i: nat :: OccursAt(s, sub, i) {
        var i: nat :| OccursAt(s, sub, i);
        assert i != 0;
        assert s[1..][i - 1..i - 1 + |sub|] == s[i..i + |sub|];
        assert OccursAt(s[1..], sub, i - 1);
      }
      if exists i: nat :: OccursAt(s[1..], sub, i) {
        var i: nat :| OccursAt(s[1..], sub, i);
        assert s[i + 1..i + 1 + |sub|] == s[1..][i..i + |sub|];
        assert OccursAt(s, sub, i + 1);
      }
    }
  }

  /** The delay after one more temporary error, given the current delay (0 before the
      first). */
  function NextDelay(delay: nat): nat
  {
    var d := if delay == 0 then InitialDelay else 2 * delay;
    if d > MaxDelay then MaxDelay else d
  }

  /** The delay after `k` temporary errors in a row. */
  function DelayAfter(k: nat): nat
  {
    if k == 0 then 0 else NextDelay(DelayAfter(k - 1))
  }

  /** The sleeps made for `k` temporary errors in a row, in order. */
  function Delays(k: nat): (r: seq<nat>)
    ensures |r| == k
  {
    if k == 0 then [] else Delays(k - 1) + [DelayAfter(k)]
  }

  function Pow2(n: nat): nat
  {
    if n == 0 then 1 else 2 * Pow2(n - 1)
  }

  function Min(a: nat, b: nat): nat
  {
    if a <= b then a else b
  }

  /** The `k`-th delay is the initial delay doubled `k - 1` times, capped at the maximum. */
  lemma {:induction false} DelayClosedForm(k: nat)
    requires k >= 1
    ensures DelayAfter(k) == Min(InitialDelay * Pow2(k - 1), MaxDelay)
  {
    if k > 1 {
      DelayClosedForm(k - 1);
      if InitialDelay * Pow2(k - 2) > MaxDelay {
        assert InitialDelay * Pow2(k - 1) == 2 * (InitialDelay * Pow2(k - 2));
      }
    }
  }

  /** Every delay lies between the initial delay and the maximum. */
  lemma {:induction false} DelayBounds(k: nat)
    requires k >= 1
    ensures InitialDelay <= DelayAfter(k) <= MaxDelay
  {
    if k > 1 {
      DelayBounds(k - 1);
    }
  }

  /** The delays never shrink. */
  lemma DelayGrows(k: nat)
    ensures DelayAfter(k) <= DelayAfter(k + 1)
  {
    if k >= 1 {
      DelayBounds(k);
    }
  }

  /** From the ninth temporary error in a row on, the delay is the maximum. */
  lemma {:induction false} DelayCapped(k: nat)
    requires k >= 9
    ensures DelayAfter(k) == MaxDelay
  {
    if k == 9 {
      assert DelayAfter(8) == 640 * Millisecond by {
        DelayClosedForm(8);
      }
    } else {
      DelayCapped(k - 1);
    }
  }

  /** The sleeps for `k` errors are the delays after 1, 2, ..., `k` errors. */
  lemma {:induction false} DelaysAre(k: nat)
    ensures forall j :: 0 <= j < k ==> Delays(k)[j] == DelayAfter(j + 1)
  {
    if k > 0 {
      DelaysAre(k - 1);
    }
  }

  /** The position of the first answer that ends the accept loop. */
  function FirstSettled(outcomes: seq<Outcome>): (n: nat)
    requires exists i :: 0 <= i < |outcomes| && !outcomes[i].Retried()
    ensures n < |outcomes| && !outcomes[n].Retried()
    ensures forall j :: 0 <= j < n ==> outcomes[j].Retried()
  {
    if !outcomes[0].Retried() then 0
    else
      assert exists i :: 0 <= i < |outcomes[1..]| && !outcomes[1..][i].Retried() by {
        var i :| 0 <= i < |outcomes| && !outcomes[i].Retried();
        assert outcomes[1..][i - 1] == outcomes[i];
      }
      1 + FirstSettled(outcomes[1..])
  }

  /** What a final answer becomes: a connection is returned, an error naming a closed
      connection becomes end of input, and any other error is returned as it is. */
  function Settle(o: Outcome): AcceptResult
  {
    match o
    case Accepted(conn) => Conn(conn)
    case Failed(err) => if Contains(err.text, ClosedText) then EOF else Err(err)
  }

  /** The result is end of input exactly for an error whose text mentions the closed
      connection, and any other error comes back unchanged. */
  lemma SettleErrors(err: ListenError)
    ensures Settle(Failed(err)) == EOF <==> exists i: nat :: OccursAt(err.text, ClosedText, i)
    ensures Settle(Failed(err)) != EOF ==> Settle(Failed(err)) == Err(err)
  {
    ContainsExact(err.text, ClosedText);
  }

  /** Accepts from a listener whose successive answers are `outcomes`. Every temporary
      error is followed by a sleep (recorded in `sleeps`) and another try; the first
      other answer decides the result. */
  method Accept(outcomes: seq<Outcome>) returns (r: AcceptResult, sleeps: seq<nat>)
    requires exists i :: 0 <= i < |outcomes| && !outcomes[i].Retried()
    ensures r == Settle(outcomes[FirstSettled(outcomes)])
    ensures sleeps == Delays(FirstSettled(outcomes))
  {
    var tempDelay: nat := 0;
    sleeps := [];
    var i := 0;
    while true
      invariant i <= FirstSettled(outcomes)
      invariant tempDelay == DelayAfter(i) && sleeps == Delays(i)
      decreases |outcomes| - i
    {
      var o := outcomes[i];
      if o.Failed? {
        if o.err.temporary {
          if tempDelay == 0 {
            tempDelay := InitialDelay;
          } else {
            tempDelay := tempDelay * 2;
          }
          if tempDelay > MaxDelay {
            tempDelay := MaxDelay;
          }
          sleeps := sleeps + [tempDelay];
          i := i + 1;
          continue;
        }
        if Contains(o.err.text, ClosedText) {
          return EOF, sleeps;
        }
        return Err(o.err), sleeps;
      }
      return Conn(o.conn), sleeps;
    }
  }
}
