/**
 * The `select!` loop of `send_msg`: the exchange is raced against the timer
 * set to the run's timeout. The loop keeps a flag `recv`; any completion of
 * the exchange sets it, whatever that completion's result, and only the timer
 * ends the loop, returning `Ok(recv)`.
 *
 * The interleaving of the two futures is given as a trace of events, in the
 * order the select loop observes them.
 */
module RaceLoop {
  import opened LittleEndian
  import opened Wire

  datatype Event =
    | TimerFired
    | ExchangeCompleted(result: Result<U64>)

  /** Index of the first timer event, or |events| when there is none. */
  function FirstTimer(events: seq<Event>): (k: nat)
    ensures k <= |events|
    ensures k < |events| ==> events[k].TimerFired?
    ensures forall j :: 0 <= j < k ==> events[j].ExchangeCompleted?
  {
    if |events| == 0 then 0
    else if events[0].TimerFired? then 0
    else 1 + FirstTimer(events[1..])
  }

  /** The timer eventually fires: the trace contains a timer event. */
  predicate HasTimer(events: seq<Event>) {
    FirstTimer(events) < |events|
  }

  lemma HasTimerIff(events: seq<Event>)
    ensures HasTimer(events) <==> exists i :: 0 <= i < |events| && events[i].TimerFired?
  {
  }

  /** The `recv` flag after the select loop has taken the first k events. */
  function RecvAfter(events: seq<Event>, k: nat): bool
    requires k <= |events|
  {
    if k == 0 then false else RecvAfter(events, k - 1) || events[k - 1].ExchangeCompleted?
  }

  /** `recv` holds iff one of the first k events was a completion of the exchange. */
  lemma {:induction false} RecvAfterIff(events: seq<Event>, k: nat)
    requires k <= |events|
    ensures RecvAfter(events, k) <==> exists j :: 0 <= j < k && events[j].ExchangeCompleted?
  {
    if k > 0 {
      RecvAfterIff(events, k - 1);
    }
  }

  /** Once `recv` is true it stays true. */
  lemma {:induction false} RecvAfterMonotone(events: seq<Event>, k: nat, l: nat)
    requires k <= l <= |events|
    requires RecvAfter(events, k)
    ensures RecvAfter(events, l)
  {
    if k < l {
      RecvAfterMonotone(events, k, l - 1);
    }
  }

  /** The flag that `send_msg` returns: was the exchange completed before the timer fired? */
  function Received(events: seq<Event>): bool
    requires HasTimer(events)
  {
    RecvAfter(events, FirstTimer(events))
  }

  lemma ReceivedIff(events: seq<Event>)
    requires HasTimer(events)
    ensures Received(events) <==> exists j :: 0 <= j < FirstTimer(events) && events[j].ExchangeCompleted?
  {
    RecvAfterIff(events, FirstTimer(events));
  }

  /**
   * The select loop. It returns at the first timer event, and only there,
   * having consumed that many events, and its result is never an error.
   */
  method Race(events: seq<Event>) returns (r: Result<bool>, consumed: nat)
    requires HasTimer(events)
    ensures consumed == FirstTimer(events) + 1
    ensures r.Ok?
    ensures r.value <==> exists j :: 0 <= j < FirstTimer(events) && events[j].ExchangeCompleted?
    ensures r == Ok(Received(events))
  {
    var recv := false;
    var i := 0;
    while true
      invariant i <= FirstTimer(events)
      invariant recv == RecvAfter(events, i)
      decreases FirstTimer(events) - i
    {
      match events[i]
      case TimerFired =>
        ReceivedIff(events);
        return Ok(recv), i + 1;
      case ExchangeCompleted(_) =>
        recv := true;
        i := i + 1;
    }
  }

  /** How the peer and the timer respond to the message sent for a sequence number. */
  type Network = (U64, seq<Byte>) -> seq<Event>

  /**
   * `send_msg`: build the datagram for `num`, hand it to the network, and
   * race the exchange against the timer.
   */
  method SendMsg(net: Network, num: U64, byteSize: nat) returns (r: Result<bool>)
    requires byteSize >= WordSize
    requires HasTimer(net(num, Message(num, byteSize)))
    ensures r == Ok(Received(net(num, Message(num, byteSize))))
  {
    var msg := BuildMessage(num, byteSize);
    var events := net(num, msg);
    var consumed;
    r, consumed := Race(events);
  }

  /** A completion counts as received even when the exchange failed with a mismatch. */
  lemma MismatchCountsAsReceived(num: U64, other: U64, tail: seq<Byte>)
    requires other != num
    ensures Received([ExchangeCompleted(Exchange(num, Reply(LeBytes(other) + tail))), TimerFired])
    ensures Exchange(num, Reply(LeBytes(other) + tail)).Err?
  {
    ForeignReplyExchange(num, other, tail);
  }

  /** A transport error inside the exchange also counts as received. */
  lemma TransportErrorCountsAsReceived(num: U64, io: Io)
    requires !io.Reply?
    ensures Exchange(num, io) == Err(Transport)
    ensures Received([ExchangeCompleted(Exchange(num, io)), TimerFired])
  {
  }

  /** One completion, whatever its result, followed by the timer: received. */
  lemma CompletionThenTimer(result: Result<U64>)
    ensures HasTimer([ExchangeCompleted(result), TimerFired])
    ensures Received([ExchangeCompleted(result), TimerFired])
  {
  }

  /** A completion that comes after the timer does not count. */
  lemma LateReplyIsMissed(result: Result<U64>, rest: seq<Event>)
    ensures !Received([TimerFired, ExchangeCompleted(result)] + rest)
  {
  }
}
