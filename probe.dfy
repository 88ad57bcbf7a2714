/**
 * One probe configuration (`Run`) and its driver `start`, which performs the
 * round trips for sequence numbers 0 to 99, in order, one after another.
 */
module Probe {
  import opened LittleEndian
  import opened Wire
  import opened RaceLoop

  /** Number of round trips in one run: `for i in 0..100`. */
  const RoundTrips: nat := 100

  /**
   * A probe configuration. The socket and the target address are left out:
   * the network is a parameter of `Start`. Rates and timeouts are exact reals.
   */
  datatype Run = Run(hertz: real, timeout: real, byteSize: nat)

  /** `Run::new`: the timeout is the reciprocal of the rate, in seconds. */
  function NewRun(hertz: real, byteSize: nat): (r: Run)
    requires hertz > 0.0
    ensures r.hertz == hertz && r.byteSize == byteSize
    ensures r.timeout > 0.0 && r.timeout * hertz == 1.0
  {
    Run(hertz, 1.0 / hertz, byteSize)
  }

  lemma ReferenceTimeouts()
    ensures NewRun(4.0, 50).timeout == 0.25
    ensures NewRun(8.0, 50).timeout == 0.125
    ensures NewRun(16.0, 50).timeout == 0.0625
  {
  }

  /**
   * The sweep `main` runs: rates 4, 8 and 16 Hz, each with payloads of 50,
   * 100 and 200 bytes, rate-major.
   */
  function ReferenceRuns(): (runs: seq<Run>)
    ensures |runs| == 9
    ensures forall i :: 0 <= i < |runs| ==>
      && runs[i].hertz == [4.0, 8.0, 16.0][i / 3]
      && runs[i].byteSize == [50, 100, 200][i % 3]
      && runs[i].timeout * runs[i].hertz == 1.0
      && runs[i].byteSize >= WordSize
  {
    [ NewRun(4.0, 50), NewRun(4.0, 100), NewRun(4.0, 200),
      NewRun(8.0, 50), NewRun(8.0, 100), NewRun(8.0, 200),
      NewRun(16.0, 50), NewRun(16.0, 100), NewRun(16.0, 200) ]
  }

  /** The timer fires in every round trip of a run with payload size `byteSize`. */
  predicate Timely(net: Network, byteSize: nat)
    requires byteSize >= WordSize
  {
    forall i :: 0 <= i < RoundTrips ==> HasTimer(net(i, Message(i, byteSize)))
  }

  /** The `send_msg` results of a whole run, indexed by sequence number. */
  function Outcomes(net: Network, byteSize: nat): (outs: seq<bool>)
    requires byteSize >= WordSize
    requires Timely(net, byteSize)
    ensures |outs| == RoundTrips
  {
    seq(RoundTrips, i requires 0 <= i < RoundTrips => Received(net(i, Message(i, byteSize))))
  }

  /**
   * `Run::start`: the stream of exactly 100 results, the i-th being the
   * result of `send_msg` for sequence number i. None of them is an error.
   */
  method Start(run: Run, net: Network) returns (items: seq<Result<bool>>)
    requires run.byteSize >= WordSize
    requires Timely(net, run.byteSize)
    ensures |items| == RoundTrips
    ensures forall i :: 0 <= i < RoundTrips ==>
      items[i] == Ok(Received(net(i, Message(i, run.byteSize))))
    ensures forall i :: 0 <= i < RoundTrips ==> items[i] == Ok(Outcomes(net, run.byteSize)[i])
  {
    items := [];
    for i := 0 to RoundTrips
      invariant |items| == i
      invariant forall j :: 0 <= j < i ==> items[j] == Ok(Received(net(j, Message(j, run.byteSize))))
    {
      var msg := SendMsg(net, i, run.byteSize);
      items := items + [msg];
    }
  }

  /** A peer that echoes every message at once, well within the timeout. */
  function EchoPeer(): Network {
    (n: U64, m: seq<Byte>) => [ExchangeCompleted(Exchange(n, Reply(m))), TimerFired]
  }

  /** A peer that never answers: only the timer fires. */
  function SilentPeer(): Network {
    (n: U64, m: seq<Byte>) => [TimerFired]
  }

  /** The sequence number one below n, wrapping at zero. */
  function Prev(n: U64): U64 {
    if n == 0 then 0xffff_ffff_ffff_ffff else n - 1
  }

  /** A peer that answers at once with the sequence number one below the one it received. */
  function OffByOnePeer(): Network {
    (n: U64, m: seq<Byte>) => [ExchangeCompleted(Exchange(n, Reply(LeBytes(Prev(n))))), TimerFired]
  }

  lemma {:induction false} EchoPeerAllReceived(byteSize: nat)
    requires byteSize >= WordSize
    ensures Timely(EchoPeer(), byteSize)
    ensures forall i :: 0 <= i < RoundTrips ==> Outcomes(EchoPeer(), byteSize)[i]
    ensures forall i :: 0 <= i < RoundTrips ==> Exchange(i, Reply(Message(i, byteSize))) == Ok(i)
  {
    forall i | 0 <= i < RoundTrips
      ensures HasTimer(EchoPeer()(i, Message(i, byteSize)))
      ensures Received(EchoPeer()(i, Message(i, byteSize)))
      ensures Exchange(i, Reply(Message(i, byteSize))) == Ok(i)
    {
      CompletionThenTimer(Exchange(i, Reply(Message(i, byteSize))));
      EchoExchange(i, byteSize);
    }
  }

  lemma SilentPeerAllMissed(byteSize: nat)
    requires byteSize >= WordSize
    ensures Timely(SilentPeer(), byteSize)
    ensures forall i :: 0 <= i < RoundTrips ==> !Outcomes(SilentPeer(), byteSize)[i]
  {
  }

  /**
   * Every exchange with the off-by-one peer fails with a mismatch, and yet
   * every round trip reports the message as received.
   */
  lemma {:induction false} OffByOnePeerAllReceived(byteSize: nat)
    requires byteSize >= WordSize
    ensures Timely(OffByOnePeer(), byteSize)
    ensures forall i :: 0 <= i < RoundTrips ==> Outcomes(OffByOnePeer(), byteSize)[i]
    ensures forall i :: 0 <= i < RoundTrips ==> Exchange(i, Reply(LeBytes(Prev(i)))) == Err(Mismatch)
  {
    forall i | 0 <= i < RoundTrips
      ensures HasTimer(OffByOnePeer()(i, Message(i, byteSize)))
      ensures Received(OffByOnePeer()(i, Message(i, byteSize)))
      ensures Exchange(i, Reply(LeBytes(Prev(i)))) == Err(Mismatch)
    {
      CompletionThenTimer(Exchange(i, Reply(LeBytes(Prev(i)))));
      assert LeBytes(Prev(i)) + [] == LeBytes(Prev(i));
      ForeignReplyExchange(i, Prev(i), []);
    }
  }
}
