/**
 * The statistics table of `main`: a map from run id to `Stat { sent, missed }`,
 * updated in place after every result of a run's stream.
 */
module Stats {
  import opened Wire

  datatype Stat = Stat(sent: nat, missed: nat)

  /** `entry(idx).or_default()` without the insertion: a zero `Stat` for an absent id. */
  function Lookup(table: map<nat, Stat>, idx: nat): (s: Stat)
    ensures idx in table ==> s == table[idx]
    ensures idx !in table ==> s == Stat(0, 0)
  {
    if idx in table then table[idx] else Stat(0, 0)
  }

  /**
   * The table after one result for run `idx`: the entry is created with
   * zeros if absent, `sent` goes up by one and `missed` by one iff the
   * message was not received. No other entry changes.
   */
  function Recorded(table: map<nat, Stat>, idx: nat, received: bool): (t: map<nat, Stat>)
    ensures t.Keys == table.Keys + {idx}
    ensures t[idx].sent == Lookup(table, idx).sent + 1
    ensures t[idx].missed == Lookup(table, idx).missed + (if received then 0 else 1)
    ensures forall id :: id in table && id != idx ==> t[id] == table[id]
  {
    var s := Lookup(table, idx);
    table[idx := Stat(s.sent + 1, if received then s.missed else s.missed + 1)]
  }

  /** Every entry has missed no more than it sent. */
  ghost predicate Consistent(table: map<nat, Stat>) {
    forall id :: id in table ==> table[id].missed <= table[id].sent
  }

  lemma RecordedConsistent(table: map<nat, Stat>, idx: nat, received: bool)
    requires Consistent(table)
    ensures Consistent(Recorded(table, idx, received))
  {
  }

  /** Number of results in `outs` that report the message as not received. */
  function Misses(outs: seq<bool>): (n: nat)
    ensures n <= |outs|
  {
    if outs == [] then 0 else Misses(outs[..|outs| - 1]) + (if outs[|outs| - 1] then 0 else 1)
  }

  lemma {:induction false} MissesNoneIff(outs: seq<bool>)
    ensures Misses(outs) == 0 <==> forall i :: 0 <= i < |outs| ==> outs[i]
  {
    if outs != [] {
      MissesNoneIff(outs[..|outs| - 1]);
    }
  }

  lemma {:induction false} MissesAllIff(outs: seq<bool>)
    ensures Misses(outs) == |outs| <==> forall i :: 0 <= i < |outs| ==> !outs[i]
  {
    if outs != [] {
      MissesAllIff(outs[..|outs| - 1]);
    }
  }

  /** The table after recording the results `outs` for run `idx`, in order. */
  function RecordAll(table: map<nat, Stat>, idx: nat, outs: seq<bool>): (t: map<nat, Stat>)
  {
    if outs == [] then table
    else Recorded(RecordAll(table, idx, outs[..|outs| - 1]), idx, outs[|outs| - 1])
  }

  /**
   * Recording a run's results adds their number to `sent` and the number of
   * misses to `missed`; the entry exists afterwards iff it did or some result
   * was recorded; other entries are untouched.
   */
  lemma {:induction false} RecordAllEffect(table: map<nat, Stat>, idx: nat, outs: seq<bool>)
    ensures RecordAll(table, idx, outs).Keys == table.Keys + (if outs == [] then {} else {idx})
    ensures Lookup(RecordAll(table, idx, outs), idx)
      == Stat(Lookup(table, idx).sent + |outs|, Lookup(table, idx).missed + Misses(outs))
    ensures forall id :: id in table && id != idx ==> RecordAll(table, idx, outs)[id] == table[id]
  {
    if outs != [] {
      RecordAllEffect(table, idx, outs[..|outs| - 1]);
    }
  }

  lemma {:induction false} RecordAllConsistent(table: map<nat, Stat>, idx: nat, outs: seq<bool>)
    requires Consistent(table)
    ensures Consistent(RecordAll(table, idx, outs))
  {
    if outs != [] {
      RecordAllConsistent(table, idx, outs[..|outs| - 1]);
      RecordedConsistent(RecordAll(table, idx, outs[..|outs| - 1]), idx, outs[|outs| - 1]);
    }
  }

  /**
   * The results `while let Some(Ok(msg))` takes from a stream: those before
   * the first error, or all of them when there is none.
   */
  function Accepted(stream: seq<Result<bool>>): (outs: seq<bool>)
    ensures |outs| <= |stream|
    ensures forall i :: 0 <= i < |outs| ==> stream[i] == Ok(outs[i])
    ensures |outs| < |stream| ==> stream[|outs|].Err?
  {
    if stream == [] || stream[0].Err? then [] else [stream[0].value] + Accepted(stream[1..])
  }

  /** A stream without errors is taken whole. */
  lemma AcceptedAllOk(outs: seq<bool>, stream: seq<Result<bool>>)
    requires |stream| == |outs|
    requires forall i :: 0 <= i < |outs| ==> stream[i] == Ok(outs[i])
    ensures Accepted(stream) == outs
  {
  }

  /** Results after the first error are never taken, whatever they are. */
  lemma AcceptedStopsAtError(prefix: seq<Result<bool>>, e: ProbeError, rest: seq<Result<bool>>)
    requires forall i :: 0 <= i < |prefix| ==> prefix[i].Ok?
    ensures |Accepted(prefix + [Err(e)] + rest)| == |prefix|
    ensures forall i :: 0 <= i < |prefix| ==> prefix[i] == Ok(Accepted(prefix + [Err(e)] + rest)[i])
  {
    var s := prefix + [Err(e)] + rest;
    assert s[|prefix|].Err?;
  }

  /** The run table `state` of `main`. */
  class StatTable {
    var stats: map<nat, Stat>

    ghost predicate Valid()
      reads this
    {
      Consistent(stats)
    }

    constructor ()
      ensures Valid()
      ensures stats == map[]
    {
      stats := map[];
    }

    /** One pass of the loop body. */
    method Record(idx: nat, received: bool)
      requires Valid()
      modifies this
      ensures Valid()
      ensures stats == Recorded(old(stats), idx, received)
    {
      var stat := if idx in stats then stats[idx] else Stat(0, 0);
      if !received {
        stat := stat.(missed := stat.missed + 1);
      }
      stat := stat.(sent := stat.sent + 1);
      stats := stats[idx := stat];
    }

    /** The inner `while let Some(Ok(msg))` loop over one run's stream. */
    method Consume(idx: nat, stream: seq<Result<bool>>)
      requires Valid()
      modifies this
      ensures Valid()
      ensures stats == RecordAll(old(stats), idx, Accepted(stream))
    {
      ghost var acc := Accepted(stream);
      var k := 0;
      while k < |stream| && stream[k].Ok?
        invariant k <= |acc|
        invariant Valid()
        invariant stats == RecordAll(old(stats), idx, acc[..k])
      {
        Record(idx, stream[k].value);
        assert acc[..k + 1][..k] == acc[..k];
        k := k + 1;
      }
      assert acc[..k] == acc;
    }
  }
}
