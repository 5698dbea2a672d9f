/** The record loop of the exporter and its per-collector counters.  An append to the export
    buffer is a step that succeeds or fails. */
module Export {
  import opened Numbers
  import DataList

  /** The statistics record sent at the end of a call. */
  datatype Statistics = Statistics(messages: nat, flowRecords: nat)

  function Successes(outcomes: seq<bool>): (n: nat)
    ensures n <= |outcomes|
  {
    if outcomes == [] then 0
    else Successes(outcomes[..|outcomes| - 1]) + if outcomes[|outcomes| - 1] then 1 else 0
  }

  /** The records whose append succeeded, in list order. */
  ghost function Delivered<T>(records: seq<T>, outcomes: seq<bool>): seq<T>
    requires |records| == |outcomes|
  {
    if records == [] then []
    else
      var n := |records| - 1;
      Delivered(records[..n], outcomes[..n]) + if outcomes[n] then [records[n]] else []
  }

  /** The counters kept for a collector between calls, and what it was sent. */
  class Collector<T> {
    var messageCount: nat
    var flowRecordCount: nat
    ghost var sent: seq<T>
    ghost var statistics: seq<Statistics>

    constructor ()
      ensures messageCount == 0 && flowRecordCount == 0 && sent == [] && statistics == []
    {
      messageCount, flowRecordCount, sent, statistics := 0, 0, [], [];
    }

    /** The counters are the numbers of calls and of delivered records, in 64 bits. */
    ghost predicate Counts()
      reads this
    {
      messageCount == |statistics| % U64 && flowRecordCount == |sent| % U64
    }

    /** A call of nvipfix_export that returns normally.  outcomes[i] says whether record i
        was appended; the record counter of the call is an int. */
    method Export(data: DataList.List<T>, outcomes: seq<bool>)
      requires data.Valid() && |outcomes| == |data.Contents| < 0x8000_0000
      modifies this
      ensures messageCount == (old(messageCount) + 1) % U64
      ensures flowRecordCount == (old(flowRecordCount) + Successes(outcomes)) % U64
      ensures sent == old(sent) + Delivered(data.Contents, outcomes)
      ensures statistics == old(statistics) + [Statistics(messageCount, flowRecordCount)]
    {
      var record: DataList.Node?<T> := data.head;
      var recordCount: nat := 0;
      var i := 0;
      while record != null
        invariant 0 <= i <= |outcomes|
        invariant record == if i < |outcomes| then data.nodes[i] else null
        invariant recordCount == Successes(outcomes[..i])
        invariant sent == old(sent) + Delivered(data.Contents[..i], outcomes[..i])
        invariant messageCount == old(messageCount) && flowRecordCount == old(flowRecordCount) && statistics == old(statistics)
        decreases |outcomes| - i
      {
        assert outcomes[..i + 1][..i] == outcomes[..i] && data.Contents[..i + 1][..i] == data.Contents[..i];
        if outcomes[i] {
          sent := sent + [record.record];
          recordCount := recordCount + 1;
        }
        record := record.next;
        i := i + 1;
      }
      assert outcomes[..i] == outcomes && data.Contents[..i] == data.Contents;
      flowRecordCount := (flowRecordCount + recordCount) % U64;
      messageCount := (messageCount + 1) % U64;
      statistics := statistics + [Statistics(messageCount, flowRecordCount)];
    }
  }

  /** As many records are delivered as appends succeeded. */
  lemma {:induction false} DeliveredCount<T>(records: seq<T>, outcomes: seq<bool>)
    requires |records| == |outcomes|
    ensures |Delivered(records, outcomes)| == Successes(outcomes)
  {
    if records != [] {
      var n := |records| - 1;
      DeliveredCount(records[..n], outcomes[..n]);
    }
  }

  // ---------------------------------------------------------------- whole runs

  datatype Counters = Counters(messages: nat, flowRecords: nat)

  /** The counters after a run of calls, each given by the outcomes of its appends. */
  ghost function CountersAfter(calls: seq<seq<bool>>): Counters {
    if calls == [] then Counters(0, 0)
    else
      var before := CountersAfter(calls[..|calls| - 1]);
      Counters((before.messages + 1) % U64, (before.flowRecords + Successes(calls[|calls| - 1])) % U64)
  }

  ghost function Total(calls: seq<seq<bool>>): nat {
    if calls == [] then 0 else Total(calls[..|calls| - 1]) + Successes(calls[|calls| - 1])
  }

  lemma WrapSum(a: nat, b: nat)
    ensures (a % U64 + b) % U64 == (a + b) % U64
  {
  }

  /** Conservation over a run: after k calls the counters hold k and the number of all
      successful appends, in 64 bits, whatever appends failed. */
  lemma {:induction false} CountersConserve(calls: seq<seq<bool>>)
    ensures CountersAfter(calls) == Counters(|calls| % U64, Total(calls) % U64)
  {
    if calls != [] {
      var before := calls[..|calls| - 1];
      CountersConserve(before);
      WrapSum(|before|, 1);
      WrapSum(Total(before), Successes(calls[|calls| - 1]));
    }
  }

  lemma OneMoreCall(calls: seq<seq<bool>>, i: nat)
    requires i < |calls|
    ensures Total(calls[..i + 1]) == Total(calls[..i]) + Successes(calls[i])
    ensures CountersAfter(calls[..i + 1]) ==
              Counters((CountersAfter(calls[..i]).messages + 1) % U64, (CountersAfter(calls[..i]).flowRecords + Successes(calls[i])) % U64)
    ensures CountersAfter(calls[..i + 1]) == Counters((i + 1) % U64, Total(calls[..i + 1]) % U64)
  {
    assert calls[..i + 1][..i] == calls[..i];
    CountersConserve(calls[..i + 1]);
  }

  /** A run of exports to one collector: the k-th statistics record carries k and the number
      of all records delivered so far. */
  method ExportAll<T>(lists: seq<DataList.List<T>>, calls: seq<seq<bool>>) returns (collector: Collector<T>)
    requires |lists| == |calls|
    requires forall i | 0 <= i < |lists| :: lists[i].Valid() && |calls[i]| == |lists[i].Contents| < 0x8000_0000
    ensures fresh(collector) && collector.Counts()
    ensures |collector.statistics| == |calls| && |collector.sent| == Total(calls)
    ensures forall k | 0 <= k < |calls| ::
              collector.statistics[k] == Statistics((k + 1) % U64, Total(calls[..k + 1]) % U64)
  {
    collector := new Collector<T>();
    for i := 0 to |calls|
      invariant fresh(collector)
      invariant Counters(collector.messageCount, collector.flowRecordCount) == CountersAfter(calls[..i])
      invariant |collector.statistics| == i && |collector.sent| == Total(calls[..i])
      invariant forall k | 0 <= k < i :: collector.statistics[k] == Statistics((k + 1) % U64, Total(calls[..k + 1]) % U64)
    {
      collector.Export(lists[i], calls[i]);
      DeliveredCount(lists[i].Contents, calls[i]);
      OneMoreCall(calls, i);
    }
    assert calls[..|calls|] == calls;
    CountersConserve(calls);
  }
}
