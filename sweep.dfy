/**
 * The measurement loop of `main`: runs are taken in index order, each run's
 * stream is consumed into the statistics table under the run's index, and
 * then the next run starts. Rendering after each update is left out.
 */
module Sweep {
  import opened LittleEndian
  import opened RaceLoop
  import opened Probe
  import opened Stats

  /** Every run can encode its sequence number, and its timer fires in every round trip. */
  predicate Runnable(runs: seq<Run>, nets: seq<Network>) {
    && |nets| == |runs|
    && (forall idx :: 0 <= idx < |runs| ==> runs[idx].byteSize >= WordSize)
    && (forall idx :: 0 <= idx < |runs| ==> Timely(nets[idx], runs[idx].byteSize))
  }

  /** The `Stat` a completed run ends with. */
  function FinalStat(run: Run, net: Network): (s: Stat)
    requires run.byteSize >= WordSize
    requires Timely(net, run.byteSize)
    ensures s.missed <= s.sent == RoundTrips
  {
    Stat(RoundTrips, Misses(Outcomes(net, run.byteSize)))
  }

  /** The table once runs 0 .. n-1 are done. */
  ghost predicate SweptUpTo(table: map<nat, Stat>, runs: seq<Run>, nets: seq<Network>, n: nat)
    requires Runnable(runs, nets)
    requires n <= |runs|
  {
    && (forall j: nat :: j in table <==> j < n)
    && (forall j :: 0 <= j < n ==> table[j] == FinalStat(runs[j], nets[j]))
  }

  /** Consuming run n's stream into a table swept up to n sweeps it up to n + 1. */
  lemma SweepStep(table: map<nat, Stat>, runs: seq<Run>, nets: seq<Network>, n: nat)
    requires Runnable(runs, nets)
    requires n < |runs|
    requires SweptUpTo(table, runs, nets, n)
    ensures SweptUpTo(RecordAll(table, n, Outcomes(nets[n], runs[n].byteSize)), runs, nets, n + 1)
  {
    var outs := Outcomes(nets[n], runs[n].byteSize);
    RecordAllEffect(table, n, outs);
    assert n !in table;
  }

  /**
   * In the middle of run n, after its first k results, every entry of the
   * table that is rendered has missed <= sent <= 100.
   */
  lemma MidRunBounded(table: map<nat, Stat>, runs: seq<Run>, nets: seq<Network>, n: nat, k: nat)
    requires Runnable(runs, nets)
    requires n < |runs|
    requires SweptUpTo(table, runs, nets, n)
    requires k <= RoundTrips
    ensures forall id :: id in RecordAll(table, n, Outcomes(nets[n], runs[n].byteSize)[..k]) ==>
      var s := RecordAll(table, n, Outcomes(nets[n], runs[n].byteSize)[..k])[id];
      s.missed <= s.sent <= RoundTrips
  {
    var outs := Outcomes(nets[n], runs[n].byteSize)[..k];
    RecordAllEffect(table, n, outs);
    assert n !in table;
  }

  /**
   * The loop `for (idx, r) in runs.iter().enumerate()` with its inner stream
   * loop, starting from the empty table. Run `idx` of the network `nets[idx]`
   * ends with exactly 100 sent and as many missed as round trips that
   * reported no reply; `missed <= sent <= 100` holds for every entry after
   * every run.
   */
  method RunSweep(runs: seq<Run>, nets: seq<Network>) returns (snapshot: map<nat, Stat>)
    requires Runnable(runs, nets)
    ensures forall idx: nat :: idx in snapshot <==> idx < |runs|
    ensures forall idx :: 0 <= idx < |runs| ==> snapshot[idx] == FinalStat(runs[idx], nets[idx])
    ensures forall idx :: idx in snapshot ==> snapshot[idx].missed <= snapshot[idx].sent <= RoundTrips
  {
    var state := new StatTable();
    for idx := 0 to |runs|
      invariant state.Valid()
      invariant SweptUpTo(state.stats, runs, nets, idx)
      invariant forall j :: j in state.stats ==> state.stats[j].sent <= RoundTrips
    {
      var stream := Start(runs[idx], nets[idx]);
      ghost var before := state.stats;
      ghost var outs := Outcomes(nets[idx], runs[idx].byteSize);
      AcceptedAllOk(outs, stream);
      state.Consume(idx, stream);
      SweepStep(before, runs, nets, idx);
    }
    snapshot := state.stats;
  }

  /** With an echoing peer no run misses a message. */
  lemma EchoSweepNoMisses(run: Run)
    requires run.byteSize >= WordSize
    ensures Timely(EchoPeer(), run.byteSize)
    ensures FinalStat(run, EchoPeer()) == Stat(RoundTrips, 0)
  {
    EchoPeerAllReceived(run.byteSize);
    MissesNoneIff(Outcomes(EchoPeer(), run.byteSize));
  }

  /** With a silent peer every message is missed. */
  lemma SilentSweepAllMissed(run: Run)
    requires run.byteSize >= WordSize
    ensures Timely(SilentPeer(), run.byteSize)
    ensures FinalStat(run, SilentPeer()) == Stat(RoundTrips, RoundTrips)
  {
    SilentPeerAllMissed(run.byteSize);
    MissesAllIff(Outcomes(SilentPeer(), run.byteSize));
  }

  /** With a peer that answers with the wrong sequence number no run misses a message either. */
  lemma OffByOneSweepNoMisses(run: Run)
    requires run.byteSize >= WordSize
    ensures Timely(OffByOnePeer(), run.byteSize)
    ensures FinalStat(run, OffByOnePeer()) == Stat(RoundTrips, 0)
  {
    OffByOnePeerAllReceived(run.byteSize);
    MissesNoneIff(Outcomes(OffByOnePeer(), run.byteSize));
  }

  /** The reference sweep against an echoing peer: nine entries, each 100 sent and none missed. */
  lemma {:induction false} ReferenceEchoSweep()
    ensures Runnable(ReferenceRuns(), seq(9, _ => EchoPeer()))
    ensures forall idx :: 0 <= idx < 9 ==>
      FinalStat(ReferenceRuns()[idx], EchoPeer()) == Stat(RoundTrips, 0)
  {
    var runs := ReferenceRuns();
    forall idx | 0 <= idx < 9
      ensures Timely(EchoPeer(), runs[idx].byteSize)
      ensures FinalStat(runs[idx], EchoPeer()) == Stat(RoundTrips, 0)
    {
      EchoSweepNoMisses(runs[idx]);
    }
  }
}
