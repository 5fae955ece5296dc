/** Offset-seek replay (replay/src/replay/producer.py), and its effect on the Flink operator. */
module Replay {
  import opened Wrappers
  import opened Books
  import opened Normalize
  import opened Iceberg

  datatype KafkaRecord = KafkaRecord(offset: int, timestampMs: int, value: OrderBookEvent)

  /** A partition's records, oldest first. */
  type Log = seq<KafkaRecord>

  /** Kafka's largest offset, used as the end of the log. */
  const MAX_OFFSET: int := 0x7fff_ffff_ffff_ffff

  ghost predicate OffsetsIncrease(log: Log) {
    forall i, j :: 0 <= i < j < |log| ==> log[i].offset < log[j].offset
  }

  ghost predicate LogsValid(logs: map<int, Log>) {
    forall p :: p in logs ==> OffsetsIncrease(logs[p])
  }

  function LogOf(logs: map<int, Log>, partition: int): Log {
    if partition in logs then logs[partition] else []
  }

  // ---- Offsets from timestamps ----

  /** offsets_for_times: the first record at or after the timestamp. */
  function OffsetForTime(log: Log, ts: int): Option<int> {
    if log == [] then None
    else if log[0].timestampMs >= ts then Some(log[0].offset)
    else OffsetForTime(log[1..], ts)
  }

  /** The range of one partition, None when it is left out. */
  function TimeRange(partition: int, log: Log, startMs: int, endMs: int): Option<OffsetRange> {
    var start, end := OffsetForTime(log, startMs), OffsetForTime(log, endMs);
    if start.None? then None
    else
      var endOffset := if end.Some? then end.value else MAX_OFFSET;
      if start.value >= endOffset then None else Some(OffsetRange(partition, start.value, endOffset))
  }

  function TimeRanges(partitions: seq<int>, logs: map<int, Log>, startMs: int, endMs: int): seq<OffsetRange> {
    if partitions == [] then []
    else
      var n := |partitions| - 1;
      TimeRanges(partitions[..n], logs, startMs, endMs)
      + match TimeRange(partitions[n], LogOf(logs, partitions[n]), startMs, endMs)
        case Some(r) => [r]
        case None => []
  }

  method KafkaTimeOffsetRanges(partitions: seq<int>, logs: map<int, Log>, startMs: int, endMs: int)
    returns (ranges: seq<OffsetRange>)
    ensures ranges == TimeRanges(partitions, logs, startMs, endMs)
  {
    ranges := [];
    if partitions == [] {
      return;
    }
    for i := 0 to |partitions|
      invariant ranges == TimeRanges(partitions[..i], logs, startMs, endMs)
    {
      assert partitions[..i + 1][..i] == partitions[..i];
      var log := LogOf(logs, partitions[i]);
      var start := OffsetForTime(log, startMs);
      var end := OffsetForTime(log, endMs);
      if start.None? {
        continue;
      }
      var endOffset := if end.Some? then end.value else MAX_OFFSET;
      if start.value >= endOffset {
        continue;
      }
      ranges := ranges + [OffsetRange(partitions[i], start.value, endOffset)];
    }
    assert partitions[..|partitions|] == partitions;
  }

  predicate InRange(r: OffsetRange, record: KafkaRecord) {
    r.startOffset <= record.offset < r.endOffset
  }

  predicate InTime(record: KafkaRecord, startMs: int, endMs: int) {
    startMs <= record.timestampMs < endMs
  }

  /** The position of the first record at or after the timestamp. */
  function FirstAt(log: Log, ts: int): (k: nat)
    ensures k <= |log| && (k < |log| ==> log[k].timestampMs >= ts)
    ensures forall i :: 0 <= i < k ==> log[i].timestampMs < ts
    ensures OffsetForTime(log, ts) == if k < |log| then Some(log[k].offset) else None
  {
    if log == [] || log[0].timestampMs >= ts then 0 else 1 + FirstAt(log[1..], ts)
  }

  /** Offsets increase and are 64-bit numbers below the largest. */
  ghost predicate KafkaLog(log: Log) {
    OffsetsIncrease(log) && forall i :: 0 <= i < |log| ==> log[i].offset < 9_223_372_036_854_775_807
  }

  lemma {:induction false} RangeByPosition(partition: int, log: Log, startMs: int, endMs: int, i: nat)
    requires KafkaLog(log) && i < |log|
    ensures var r := TimeRange(partition, log, startMs, endMs);
            r.Some? && InRange(r.value, log[i]) <==> FirstAt(log, startMs) <= i < FirstAt(log, endMs)
  {
    var a, b := FirstAt(log, startMs), FirstAt(log, endMs);
    assert a < |log| ==> (a <= i <==> log[a].offset <= log[i].offset);
    assert b < |log| ==> (i < b <==> log[i].offset < log[b].offset);
  }

  /** No record of the window comes behind one that is past it, and a record from before the window comes
      behind a later one only if one past the window comes first. */
  ghost predicate WindowInOrder(log: Log, startMs: int, endMs: int) {
    endMs <= startMs
    || ((forall i, j :: 0 <= i < j < |log| && log[i].timestampMs >= endMs ==> !InTime(log[j], startMs, endMs))
        && (forall i, j :: 0 <= i < j < |log| && log[i].timestampMs >= startMs && log[j].timestampMs < startMs ==>
              PastBefore(log, j, endMs)))
  }

  ghost predicate PastBefore(log: Log, j: nat, endMs: int)
    requires j <= |log|
  {
    exists h :: 0 <= h < j && log[h].timestampMs >= endMs
  }

  /** The range selects exactly the records of the window. */
  ghost predicate RangeIsWindow(log: Log, r: Option<OffsetRange>, startMs: int, endMs: int) {
    forall i :: 0 <= i < |log| ==> (InTime(log[i], startMs, endMs) <==> r.Some? && InRange(r.value, log[i]))
  }

  /** An offset range is an interval of offsets, and timestamps need not follow the offsets. For every log the
      computed range selects exactly the records of the time window, to the end of the log when nothing lies
      behind the window, if and only if the window is in order. A partition without a record in the window
      is always left out, and when the window is in order only such a partition is. */
  lemma {:induction false} TimeRangeIsExact(partition: int, log: Log, startMs: int, endMs: int)
    requires KafkaLog(log)
    ensures var r := TimeRange(partition, log, startMs, endMs);
            var nothing := forall i :: 0 <= i < |log| ==> !InTime(log[i], startMs, endMs);
            (RangeIsWindow(log, r, startMs, endMs) <==> WindowInOrder(log, startMs, endMs))
            && (nothing ==> r.None?)
            && (WindowInOrder(log, startMs, endMs) && r.None? ==> nothing)
  {
    var a, b := FirstAt(log, startMs), FirstAt(log, endMs);
    var r := TimeRange(partition, log, startMs, endMs);
    forall i | 0 <= i < |log| ensures r.Some? && InRange(r.value, log[i]) <==> a <= i < b {
      RangeByPosition(partition, log, startMs, endMs, i);
    }
    if r.Some? {
      assert a < b && InTime(log[a], startMs, endMs) by {
        RangeIsProper(partition, log, startMs, endMs);
      }
    }
    hide TimeRange;
    WindowByPosition(log, startMs, endMs);
  }

  lemma {:induction false} RangeIsProper(partition: int, log: Log, startMs: int, endMs: int)
    requires KafkaLog(log)
    ensures var r := TimeRange(partition, log, startMs, endMs);
            r.Some? ==> FirstAt(log, startMs) < FirstAt(log, endMs)
  {
  }

  lemma {:induction false} WindowByPosition(log: Log, startMs: int, endMs: int)
    ensures WindowInOrder(log, startMs, endMs)
            <==> forall i :: 0 <= i < |log| ==>
                   (InTime(log[i], startMs, endMs) <==> FirstAt(log, startMs) <= i < FirstAt(log, endMs))
  {
    var a, b := FirstAt(log, startMs), FirstAt(log, endMs);
    if WindowInOrder(log, startMs, endMs) && startMs < endMs {
      forall i | 0 <= i < |log| ensures InTime(log[i], startMs, endMs) <==> a <= i < b {
        assert a < i && log[i].timestampMs < startMs ==> PastBefore(log, i, endMs);
      }
    }
    if startMs < endMs && forall i :: 0 <= i < |log| ==> (InTime(log[i], startMs, endMs) <==> a <= i < b) {
      forall i, j | 0 <= i < j < |log| && log[i].timestampMs >= startMs && log[j].timestampMs < startMs
        ensures PastBefore(log, j, endMs)
      {
        assert log[b].timestampMs >= endMs;
      }
    }
  }

  ghost predicate TimesNondecreasing(log: Log) {
    forall i, j :: 0 <= i < j < |log| ==> log[i].timestampMs <= log[j].timestampMs
  }

  /** Nondecreasing timestamps put every window in order. */
  lemma {:induction false} NondecreasingInOrder(log: Log, startMs: int, endMs: int)
    requires TimesNondecreasing(log)
    ensures WindowInOrder(log, startMs, endMs)
  {
  }

  // ---- Reading with a budget ----

  /** The records of a log that lie in a range, in order. */
  function Selected(log: Log, r: OffsetRange): seq<KafkaRecord> {
    if log == [] then []
    else
      var n := |log| - 1;
      Selected(log[..n], r) + if InRange(r, log[n]) then [log[n]] else []
  }

  /** What the ranges select, partition after partition. */
  function AllSelected(logs: map<int, Log>, ranges: seq<OffsetRange>): seq<KafkaRecord> {
    if ranges == [] then []
    else
      var n := |ranges| - 1;
      AllSelected(logs, ranges[..n]) + Selected(LogOf(logs, ranges[n].partition), ranges[n])
  }

  /** The first max(budget, 0) records, all of them without a budget. */
  function Budgeted(records: seq<KafkaRecord>, budget: Option<int>): seq<KafkaRecord> {
    if budget.None? || budget.value >= |records| then records
    else if budget.value <= 0 then []
    else records[..budget.value]
  }

  function Values(records: seq<KafkaRecord>): (vs: seq<OrderBookEvent>)
    ensures |vs| == |records|
    ensures forall i :: 0 <= i < |vs| ==> vs[i] == records[i].value
  {
    seq(|records|, i requires 0 <= i < |records| => records[i].value)
  }

  class KafkaProducer {
    /** The values sent so far. */
    var sent: seq<OrderBookEvent>

    constructor ()
      ensures sent == []
    {
      sent := [];
    }

    method Send(value: OrderBookEvent)
      modifies this
      ensures sent == old(sent) + [value]
    {
      sent := sent + [value];
    }
  }

  /** The books of a run that started with before sent and read these records: the counts, and what
      the producer holds now. A dry run reads and counts but sends nothing. */
  ghost predicate Ledger(dryRun: bool, before: seq<OrderBookEvent>, records: seq<KafkaRecord>,
                         read: int, produced: int, now: seq<OrderBookEvent>) {
    && read == |records|
    && produced == (if dryRun then 0 else |records|)
    && now == if dryRun then before else before + Values(records)
  }

  lemma {:induction false} LedgerStep(dryRun: bool, before: seq<OrderBookEvent>,
                                      records: seq<KafkaRecord>, read: int, produced: int, mid: seq<OrderBookEvent>,
                                      more: seq<KafkaRecord>, read': int, produced': int, now: seq<OrderBookEvent>)
    requires Ledger(dryRun, before, records, read, produced, mid)
    requires Ledger(dryRun, mid, more, read', produced', now)
    ensures Ledger(dryRun, before, records + more, read + read', produced + produced', now)
  {
  }

  lemma {:induction false} LedgerOne(dryRun: bool, before: seq<OrderBookEvent>,
                                     records: seq<KafkaRecord>, read: int, produced: int, mid: seq<OrderBookEvent>,
                                     record: KafkaRecord)
    requires Ledger(dryRun, before, records, read, produced, mid)
    ensures Ledger(dryRun, before, records + [record], read + 1, if dryRun then produced else produced + 1,
                   if dryRun then mid else mid + [record.value])
  {
  }

  lemma {:induction false} LedgerCounts(dryRun: bool, before: seq<OrderBookEvent>,
                                        records: seq<KafkaRecord>, read: int, produced: int, now: seq<OrderBookEvent>)
    requires Ledger(dryRun, before, records, read, produced, now)
    ensures read == |records|
  {
  }

  lemma {:induction false} SelectedStep(log: Log, r: OffsetRange, i: nat)
    requires i < |log|
    ensures Selected(log[..i + 1], r)
            == if InRange(r, log[i]) then Selected(log[..i], r) + [log[i]] else Selected(log[..i], r)
  {
    assert log[..i + 1][..i] == log[..i];
  }

  lemma {:induction false} SelectedStops(log: Log, r: OffsetRange, i: nat)
    requires OffsetsIncrease(log) && i <= |log|
    requires i < |log| ==> log[i].offset >= r.endOffset
    ensures Selected(log, r) == Selected(log[..i], r)
    decreases |log|
  {
    if i == |log| {
      assert log[..i] == log;
    } else {
      var n := |log| - 1;
      assert log[n].offset >= r.endOffset;
      assert log[..n][..i] == log[..i];
      SelectedStops(log[..n], r, i);
    }
  }

  lemma {:induction false} SelectedPrefix(log: Log, r: OffsetRange, i: nat)
    requires i <= |log|
    ensures Selected(log[..i], r) <= Selected(log, r)
    decreases |log|
  {
    if i == |log| {
      assert log[..i] == log;
    } else {
      var n := |log| - 1;
      assert log[..n][..i] == log[..i];
      SelectedPrefix(log[..n], r, i);
    }
  }

  /** A budget takes the first records, as many as it and the records allow. */
  lemma {:induction false} BudgetIsPrefix(records: seq<KafkaRecord>, budget: Option<int>)
    ensures Budgeted(records, budget) <= records
    ensures |Budgeted(records, budget)|
            == if budget.None? then |records| else Min(Max(budget.value, 0), |records|)
  {
  }

  /** What is read from a range comes in the order of the log. */
  lemma {:induction false} SelectedInOrder(log: Log, r: OffsetRange)
    requires OffsetsIncrease(log)
    ensures OffsetsIncrease(Selected(log, r))
  {
    if log != [] {
      SelectedInOrder(log[..|log| - 1], r);
      forall record | record in Selected(log[..|log| - 1], r) ensures record.offset < log[|log| - 1].offset {
        SelectedIff(log[..|log| - 1], r, record);
      }
    }
  }

  /** One partition: records from the seek position on, until the end offset or the budget is reached. */
  method ReplayPartition(log: Log, r: OffsetRange, maxEvents: Option<int>, dryRun: bool, producer: KafkaProducer)
    returns (read: nat, produced: nat, ghost records: seq<KafkaRecord>)
    requires OffsetsIncrease(log)
    modifies producer
    ensures records == Budgeted(Selected(log, r), maxEvents)
    ensures Ledger(dryRun, old(producer.sent), records, read, produced, producer.sent)
  {
    read, produced, records := 0, 0, [];
    assert Ledger(dryRun, producer.sent, records, read, produced, producer.sent);
    hide Ledger;
    for i := 0 to |log|
      invariant records == Selected(log[..i], r) && read == |records|
      invariant maxEvents.Some? ==> read <= Max(maxEvents.value, 0)
      invariant Ledger(dryRun, old(producer.sent), records, read, produced, producer.sent)
    {
      var record := log[i];
      SelectedStep(log, r, i);
      if record.offset < r.startOffset {
        continue; // before the seek position
      }
      if record.offset >= r.endOffset {
        SelectedStops(log, r, i);
        return;
      }
      if maxEvents.Some? && read >= maxEvents.value {
        SelectedPrefix(log, r, i + 1);
        SelectedPrefix(log, r, i);
        return;
      }
      LedgerOne(dryRun, old(producer.sent), records, read, produced, producer.sent, record);
      read := read + 1;
      if !dryRun {
        producer.Send(record.value);
        produced := produced + 1;
      }
      records := records + [record];
    }
    assert log[..|log|] == log;
  }

  lemma {:induction false} BudgetedAppend(a: seq<KafkaRecord>, b: seq<KafkaRecord>, budget: int)
    requires |Budgeted(a, Some(budget))| < budget
    ensures Budgeted(a, Some(budget)) == a
    ensures Budgeted(a + b, Some(budget)) == a + Budgeted(b, Some(budget - |a|))
  {
  }

  class ReplayStats {
    var eventsRead: nat
    var eventsProduced: nat
    var partitionsReplayed: seq<int>
    var offsetSource: string

    constructor ()
      ensures eventsRead == 0 && eventsProduced == 0 && partitionsReplayed == [] && offsetSource == "unknown"
    {
      eventsRead, eventsProduced, partitionsReplayed, offsetSource := 0, 0, [], "unknown";
    }
  }

  function Partitions(ranges: seq<OffsetRange>): seq<int> {
    if ranges == [] then [] else Partitions(ranges[..|ranges| - 1]) + [ranges[|ranges| - 1].partition]
  }

  /** One entry for each range visited, in order. */
  lemma {:induction false} PartitionsAt(ranges: seq<OffsetRange>)
    ensures |Partitions(ranges)| == |ranges|
    ensures forall k :: 0 <= k < |ranges| ==> Partitions(ranges)[k] == ranges[k].partition
  {
    if ranges != [] {
      PartitionsAt(ranges[..|ranges| - 1]);
    }
  }

  lemma {:induction false} PartitionsStep(ranges: seq<OffsetRange>, k: nat)
    requires k < |ranges|
    ensures Partitions(ranges[..k + 1]) == Partitions(ranges[..k]) + [ranges[k].partition]
  {
    assert ranges[..k + 1][..k] == ranges[..k];
  }

  /** k ranges are visited: all of them, or as many as it takes to use the budget up. */
  ghost predicate Visited(logs: map<int, Log>, ranges: seq<OffsetRange>, maxEvents: Option<int>, k: nat) {
    && k <= |ranges|
    && (k < |ranges| ==> maxEvents.Some? && |AllSelected(logs, ranges[..k])| >= maxEvents.value)
    && (maxEvents.Some? ==> forall j :: 0 <= j < k ==> |AllSelected(logs, ranges[..j])| < maxEvents.value)
  }

  lemma {:induction false} AllSelectedStep(logs: map<int, Log>, ranges: seq<OffsetRange>, k: nat)
    requires k < |ranges|
    ensures AllSelected(logs, ranges[..k + 1])
            == AllSelected(logs, ranges[..k]) + Selected(LogOf(logs, ranges[k].partition), ranges[k])
  {
    assert ranges[..k + 1][..k] == ranges[..k];
  }

  lemma {:induction false} AllSelectedPrefix(logs: map<int, Log>, ranges: seq<OffsetRange>, k: nat)
    requires k <= |ranges|
    ensures AllSelected(logs, ranges[..k]) <= AllSelected(logs, ranges)
    decreases |ranges|
  {
    if k == |ranges| {
      assert ranges[..k] == ranges;
    } else {
      var n := |ranges| - 1;
      assert ranges[..n][..k] == ranges[..k];
      AllSelectedPrefix(logs, ranges[..n], k);
    }
  }

  /** The replay loop over the partitions. Whatever the ranges and the budget, the records read are the
      first max(budget, 0) of everything the ranges select; a live run sends exactly those, a dry run
      nothing; and the partitions visited are a prefix of the ranges. */
  method ReplayRanges(logs: map<int, Log>, ranges: seq<OffsetRange>, maxEvents: Option<int>, dryRun: bool,
                      stats: ReplayStats, producer: KafkaProducer)
    returns (ghost records: seq<KafkaRecord>, ghost visited: nat)
    requires LogsValid(logs)
    requires stats.eventsRead == 0 && stats.eventsProduced == 0 && stats.partitionsReplayed == []
    modifies stats`eventsRead, stats`eventsProduced, stats`partitionsReplayed, producer
    ensures records == Budgeted(AllSelected(logs, ranges), maxEvents)
    ensures Ledger(dryRun, old(producer.sent), records, stats.eventsRead, stats.eventsProduced, producer.sent)
    ensures Visited(logs, ranges, maxEvents, visited) && stats.partitionsReplayed == Partitions(ranges[..visited])
  {
    hide Ledger, Partitions, Progress, AllSelected, Selected, Budgeted, Visited, LogsValid, OffsetsIncrease, LogOf;
    records := [];
    ProgressStarts(logs, ranges, maxEvents, dryRun, producer.sent);
    for k := 0 to |ranges|
      invariant Progress(logs, ranges, maxEvents, k, records, stats.partitionsReplayed)
      invariant Ledger(dryRun, old(producer.sent), records, stats.eventsRead, stats.eventsProduced, producer.sent)
    {
      LedgerCounts(dryRun, old(producer.sent), records, stats.eventsRead, stats.eventsProduced, producer.sent);
      var remaining := if maxEvents.Some? then Some(maxEvents.value - stats.eventsRead) else None;
      if remaining.Some? && remaining.value <= 0 {
        ProgressEnds(logs, ranges, maxEvents, k, records, stats.partitionsReplayed);
        visited := k;
        return;
      }
      LogsIncrease(logs, ranges[k].partition);
      ghost var mid := producer.sent;
      var read, produced, got :=
        ReplayPartition(LogOf(logs, ranges[k].partition), ranges[k], remaining, dryRun, producer);
      ProgressStep(logs, ranges, maxEvents, k, records, stats.partitionsReplayed, remaining, got);
      LedgerStep(dryRun, old(producer.sent), records, stats.eventsRead, stats.eventsProduced, mid,
                 got, read, produced, producer.sent);
      stats.eventsRead := stats.eventsRead + read;
      stats.eventsProduced := stats.eventsProduced + produced;
      stats.partitionsReplayed := stats.partitionsReplayed + [ranges[k].partition];
      records := records + got;
    }
    ProgressEnds(logs, ranges, maxEvents, |ranges|, records, stats.partitionsReplayed);
    visited := |ranges|;
  }

  /** After k ranges the records are the budgeted part of what these select, and no earlier range used
      the budget up. */
  ghost predicate Progress(logs: map<int, Log>, ranges: seq<OffsetRange>, maxEvents: Option<int>, k: nat,
                           records: seq<KafkaRecord>, replayed: seq<int>) {
    && k <= |ranges|
    && replayed == Partitions(ranges[..k])
    && records == Budgeted(AllSelected(logs, ranges[..k]), maxEvents)
    && (maxEvents.Some? ==> forall j :: 0 <= j < k ==> |AllSelected(logs, ranges[..j])| < maxEvents.value)
  }

  lemma {:induction false} ProgressStarts(logs: map<int, Log>, ranges: seq<OffsetRange>, maxEvents: Option<int>,
                                          dryRun: bool, sent: seq<OrderBookEvent>)
    ensures Progress(logs, ranges, maxEvents, 0, [], []) && Ledger(dryRun, sent, [], 0, 0, sent)
  {
  }

  lemma {:induction false} LogsIncrease(logs: map<int, Log>, partition: int)
    requires LogsValid(logs)
    ensures OffsetsIncrease(LogOf(logs, partition))
  {
  }

  lemma {:induction false} ProgressStep(logs: map<int, Log>, ranges: seq<OffsetRange>, maxEvents: Option<int>, k: nat,
                                        records: seq<KafkaRecord>, replayed: seq<int>,
                                        remaining: Option<int>, got: seq<KafkaRecord>)
    requires Progress(logs, ranges, maxEvents, k, records, replayed) && k < |ranges|
    requires maxEvents.Some? ==> |records| < maxEvents.value
    requires remaining == if maxEvents.Some? then Some(maxEvents.value - |records|) else None
    requires got == Budgeted(Selected(LogOf(logs, ranges[k].partition), ranges[k]), remaining)
    ensures Progress(logs, ranges, maxEvents, k + 1, records + got, replayed + [ranges[k].partition])
  {
    PartitionsStep(ranges, k);
    var before := AllSelected(logs, ranges[..k]);
    AllSelectedStep(logs, ranges, k);
    if maxEvents.Some? {
      BudgetedAppend(before, Selected(LogOf(logs, ranges[k].partition), ranges[k]), maxEvents.value);
    }
  }

  lemma {:induction false} ProgressEnds(logs: map<int, Log>, ranges: seq<OffsetRange>, maxEvents: Option<int>, k: nat,
                                        records: seq<KafkaRecord>, replayed: seq<int>)
    requires Progress(logs, ranges, maxEvents, k, records, replayed)
    requires k == |ranges| || (maxEvents.Some? && |records| >= maxEvents.value)
    ensures records == Budgeted(AllSelected(logs, ranges), maxEvents)
    ensures Visited(logs, ranges, maxEvents, k) && replayed == Partitions(ranges[..k])
  {
    AllSelectedPrefix(logs, ranges, k);
    assert ranges[..|ranges|] == ranges;
  }

  // ---- The whole run ----

  ghost predicate AnyValidRow(scan: Option<seq<OffsetRow>>) {
    exists i :: 0 <= i < |RowsOfScan(scan)| && IsValidRow(RowsOfScan(scan)[i])
  }

  /** The ranges a run uses: the tight hull of the Iceberg rows when one of them is valid, otherwise the
      ranges of the time window. */
  ghost predicate ResolvedRanges(scan: Option<seq<OffsetRow>>, partitions: seq<int>, logs: map<int, Log>,
                                 startMs: int, endMs: int, ranges: seq<OffsetRange>) {
    if AnyValidRow(scan) then TightHull(RowsOfScan(scan), ranges)
    else ranges == TimeRanges(partitions, logs, startMs, endMs)
  }

  method ResolveRanges(scan: Option<seq<OffsetRow>>, partitions: seq<int>, logs: map<int, Log>,
                       startMs: int, endMs: int)
    returns (ranges: seq<OffsetRange>, source: string)
    ensures ResolvedRanges(scan, partitions, logs, startMs, endMs, ranges)
    ensures source == if AnyValidRow(scan) then "iceberg" else "kafka_time"
    ensures source == "iceberg"
            <==> scan.Some?
                 && exists i :: 0 <= i < |scan.value| && scan.value[i].partition != -1 && scan.value[i].offset != -1
  {
    ranges := ReadOffsetRange(scan);
    EmptyIffNoValidRow(RowsOfScan(scan), ranges);
    if ranges != [] {
      source := "iceberg";
    } else {
      ranges := KafkaTimeOffsetRanges(partitions, logs, startMs, endMs);
      source := "kafka_time";
    }
  }

  /** run_replay: resolve the ranges, then replay them under the budget. A live run with something to
      replay raises when its producer does not start; nothing has then been read or sent. */
  method RunReplay(scan: Option<seq<OffsetRow>>, partitions: seq<int>, logs: map<int, Log>, startMs: int, endMs: int,
                   maxEvents: Option<int>, dryRun: bool, producerStarts: bool, producer: KafkaProducer)
    returns (raised: bool, stats: ReplayStats, ghost ranges: seq<OffsetRange>, ghost records: seq<KafkaRecord>,
             ghost visited: nat)
    requires LogsValid(logs)
    modifies producer
    ensures fresh(stats)
    ensures ResolvedRanges(scan, partitions, logs, startMs, endMs, ranges)
    ensures stats.offsetSource == if AnyValidRow(scan) then "iceberg" else "kafka_time"
    ensures raised <==> !dryRun && !producerStarts && ranges != []
    ensures records == if raised then [] else Budgeted(AllSelected(logs, ranges), maxEvents)
    ensures Ledger(dryRun, old(producer.sent), records, stats.eventsRead, stats.eventsProduced, producer.sent)
    ensures stats.eventsRead == |records|
    ensures dryRun ==> stats.eventsProduced == 0 && producer.sent == old(producer.sent)
    ensures !dryRun ==> stats.eventsProduced == |records| && producer.sent == old(producer.sent) + Values(records)
    ensures if raised then stats.partitionsReplayed == []
            else Visited(logs, ranges, maxEvents, visited) && stats.partitionsReplayed == Partitions(ranges[..visited])
  {
    hide ResolvedRanges, AnyValidRow, LogsValid;
    stats := new ReplayStats();
    var found, source := ResolveRanges(scan, partitions, logs, startMs, endMs);
    stats.offsetSource := source;
    raised, ranges, records, visited := false, found, [], 0;
    if found == [] {
      return;
    }
    if !dryRun && !producerStarts {
      raised := true;
      return;
    }
    records, visited := ReplayRanges(logs, found, maxEvents, dryRun, stats, producer);
  }

  // ---- What a run re-sends ----

  /** The records of a log whose timestamp lies in the window. */
  function InWindow(log: Log, startMs: int, endMs: int): seq<KafkaRecord> {
    if log == [] then []
    else
      var n := |log| - 1;
      InWindow(log[..n], startMs, endMs) + if InTime(log[n], startMs, endMs) then [log[n]] else []
  }

  function AllInWindow(partitions: seq<int>, logs: map<int, Log>, startMs: int, endMs: int): seq<KafkaRecord> {
    if partitions == [] then []
    else
      var n := |partitions| - 1;
      AllInWindow(partitions[..n], logs, startMs, endMs) + InWindow(LogOf(logs, partitions[n]), startMs, endMs)
  }

  lemma {:induction false} SelectedIsWindow(log: Log, r: Option<OffsetRange>, startMs: int, endMs: int, k: nat)
    requires k <= |log| && RangeIsWindow(log, r, startMs, endMs)
    ensures InWindow(log[..k], startMs, endMs) == if r.Some? then Selected(log[..k], r.value) else []
  {
    if k > 0 {
      assert log[..k][..k - 1] == log[..k - 1];
      SelectedIsWindow(log, r, startMs, endMs, k - 1);
    }
  }

  lemma {:induction false} InWindowIff(log: Log, startMs: int, endMs: int, record: KafkaRecord)
    ensures record in InWindow(log, startMs, endMs) <==> record in log && InTime(record, startMs, endMs)
  {
    if log != [] {
      InWindowIff(log[..|log| - 1], startMs, endMs, record);
    }
  }

  /** What the time range of one partition selects. */
  function TimeSelected(partition: int, log: Log, startMs: int, endMs: int): seq<KafkaRecord> {
    match TimeRange(partition, log, startMs, endMs)
    case Some(r) => Selected(log, r)
    case None => []
  }

  lemma {:induction false} TimeRangeSelectsWindow(partition: int, log: Log, startMs: int, endMs: int)
    requires KafkaLog(log)
    ensures TimeSelected(partition, log, startMs, endMs) == InWindow(log, startMs, endMs)
            <==> WindowInOrder(log, startMs, endMs)
  {
    var r := TimeRange(partition, log, startMs, endMs);
    TimeRangeIsExact(partition, log, startMs, endMs);
    hide TimeRange, WindowInOrder;
    assert log[..|log|] == log;
    if RangeIsWindow(log, r, startMs, endMs) {
      SelectedIsWindow(log, r, startMs, endMs, |log|);
    }
    if TimeSelected(partition, log, startMs, endMs) == InWindow(log, startMs, endMs) {
      forall i | 0 <= i < |log|
        ensures InTime(log[i], startMs, endMs) <==> r.Some? && InRange(r.value, log[i])
      {
        InWindowIff(log, startMs, endMs, log[i]);
        if r.Some? {
          SelectedIff(log, r.value, log[i]);
        }
      }
    }
  }

  lemma {:induction false} TimeRangesStep(partitions: seq<int>, logs: map<int, Log>, startMs: int, endMs: int, m: nat)
    requires m < |partitions|
    ensures var p := partitions[m];
            AllSelected(logs, TimeRanges(partitions[..m + 1], logs, startMs, endMs))
            == AllSelected(logs, TimeRanges(partitions[..m], logs, startMs, endMs))
               + TimeSelected(p, LogOf(logs, p), startMs, endMs)
    ensures AllInWindow(partitions[..m + 1], logs, startMs, endMs)
            == AllInWindow(partitions[..m], logs, startMs, endMs)
               + InWindow(LogOf(logs, partitions[m]), startMs, endMs)
  {
    assert partitions[..m + 1][..m] == partitions[..m];
    var r := TimeRange(partitions[m], LogOf(logs, partitions[m]), startMs, endMs);
    var before := TimeRanges(partitions[..m], logs, startMs, endMs);
    if r.Some? {
      AllSelectedAppend(logs, before, r.value);
    } else {
      assert before + [] == before;
    }
  }

  lemma {:induction false} AllSelectedAppend(logs: map<int, Log>, ranges: seq<OffsetRange>, r: OffsetRange)
    ensures AllSelected(logs, ranges + [r]) == AllSelected(logs, ranges) + Selected(LogOf(logs, r.partition), r)
  {
  }

  /** After the first m partitions the ranges have selected what lies in the window. */
  ghost predicate SelectsWindow(partitions: seq<int>, logs: map<int, Log>, startMs: int, endMs: int, m: nat)
    requires m <= |partitions|
  {
    AllSelected(logs, TimeRanges(partitions[..m], logs, startMs, endMs))
    == AllInWindow(partitions[..m], logs, startMs, endMs)
  }

  /** The ranges computed from the time window select exactly the records of the window, partition after
      partition, if and only if the window is in order in each partition. */
  lemma {:induction false} TimeRangesSelectWindow(partitions: seq<int>, logs: map<int, Log>, startMs: int, endMs: int)
    requires forall p :: p in logs ==> KafkaLog(logs[p])
    ensures (forall m :: 0 <= m <= |partitions| ==> SelectsWindow(partitions, logs, startMs, endMs, m))
            <==> forall i :: 0 <= i < |partitions| ==> WindowInOrder(LogOf(logs, partitions[i]), startMs, endMs)
  {
    hide TimeSelected, InWindow, KafkaLog, AllSelected, TimeRanges, AllInWindow, WindowInOrder, SelectsWindow;
    NothingSelected(partitions, logs, startMs, endMs);
    if forall m :: 0 <= m <= |partitions| ==> SelectsWindow(partitions, logs, startMs, endMs, m) {
      forall i | 0 <= i < |partitions| ensures WindowInOrder(LogOf(logs, partitions[i]), startMs, endMs) {
        assert SelectsWindow(partitions, logs, startMs, endMs, i + 1);
        SelectsOneMore(partitions, logs, startMs, endMs, i);
      }
    }
    if forall i :: 0 <= i < |partitions| ==> WindowInOrder(LogOf(logs, partitions[i]), startMs, endMs) {
      for m := 0 to |partitions|
        invariant forall i :: 0 <= i <= m ==> SelectsWindow(partitions, logs, startMs, endMs, i)
      {
        SelectsOneMore(partitions, logs, startMs, endMs, m);
      }
    }
  }

  lemma {:induction false} NothingSelected(partitions: seq<int>, logs: map<int, Log>, startMs: int, endMs: int)
    ensures SelectsWindow(partitions, logs, startMs, endMs, 0)
  {
  }

  lemma {:induction false} SelectsOneMore(partitions: seq<int>, logs: map<int, Log>, startMs: int, endMs: int, m: nat)
    requires forall p :: p in logs ==> KafkaLog(logs[p])
    requires m < |partitions| && SelectsWindow(partitions, logs, startMs, endMs, m)
    ensures SelectsWindow(partitions, logs, startMs, endMs, m + 1)
            <==> WindowInOrder(LogOf(logs, partitions[m]), startMs, endMs)
  {
    var p := partitions[m];
    TimeRangesStep(partitions, logs, startMs, endMs, m);
    TimeRangeSelectsWindow(p, LogOf(logs, p), startMs, endMs);
    hide TimeSelected, InWindow, AllSelected, TimeRanges, AllInWindow, WindowInOrder;
    var before := AllInWindow(partitions[..m], logs, startMs, endMs);
    var got, wanted := TimeSelected(p, LogOf(logs, p), startMs, endMs), InWindow(LogOf(logs, p), startMs, endMs);
    if before + got == before + wanted {
      assert got == (before + got)[|before|..] == (before + wanted)[|before|..] == wanted;
    }
  }

  /** Some valid row of the partition lies at or below the offset, and some at or above it. */
  ghost predicate BetweenRows(rows: seq<OffsetRow>, partition: int, offset: int) {
    && (exists i :: 0 <= i < |rows| && IsValidRow(rows[i])
                    && rows[i].partition == partition && rows[i].offset <= offset)
    && (exists j :: 0 <= j < |rows| && IsValidRow(rows[j])
                    && rows[j].partition == partition && offset <= rows[j].offset)
  }

  lemma {:induction false} HullIsBetween(rows: seq<OffsetRow>, r: OffsetRange, offset: int)
    requires IsHullOf(rows, r)
    ensures BetweenRows(rows, r.partition, offset) <==> r.startOffset <= offset < r.endOffset
  {
  }

  lemma {:induction false} SelectedIff(log: Log, r: OffsetRange, record: KafkaRecord)
    ensures record in Selected(log, r) <==> record in log && InRange(r, record)
  {
    if log != [] {
      SelectedIff(log[..|log| - 1], r, record);
    }
  }

  lemma {:induction false} AllSelectedIff(logs: map<int, Log>, ranges: seq<OffsetRange>, record: KafkaRecord)
    ensures record in AllSelected(logs, ranges)
            <==> exists k :: 0 <= k < |ranges|
                             && record in LogOf(logs, ranges[k].partition) && InRange(ranges[k], record)
  {
    if ranges != [] {
      var n := |ranges| - 1;
      AllSelectedIff(logs, ranges[..n], record);
      SelectedIff(LogOf(logs, ranges[n].partition), ranges[n], record);
      hide LogOf, InRange, Selected;
      assert forall k :: 0 <= k < n ==> ranges[..n][k] == ranges[k];
    }
  }

  /** What the Iceberg path selects, exactly: the records lying between two valid rows of their partition.
      The record of every valid row is among them, and so is everything in between, whatever symbol it is
      for and whether or not it has a row, since the symbol is not looked at again. */
  lemma {:induction false} IcebergSelects(rows: seq<OffsetRow>, ranges: seq<OffsetRange>,
                                          logs: map<int, Log>, record: KafkaRecord)
    requires TightHull(rows, ranges)
    ensures record in AllSelected(logs, ranges)
            <==> exists p :: record in LogOf(logs, p) && BetweenRows(rows, p, record.offset)
  {
    AllSelectedIff(logs, ranges, record);
    if k :| 0 <= k < |ranges| && record in LogOf(logs, ranges[k].partition) && InRange(ranges[k], record) {
      HullIsBetween(rows, ranges[k], record.offset);
    }
    if p :| record in LogOf(logs, p) && BetweenRows(rows, p, record.offset) {
      assert Mentions(ranges, p);
      var k :| 0 <= k < |ranges| && ranges[k].partition == p;
      HullIsBetween(rows, ranges[k], record.offset);
    }
  }

  /** On the Iceberg path an unlimited run covers every row: the record each valid row came from is among
      the records selected. */
  lemma {:induction false} IcebergRangesCoverRows(rows: seq<OffsetRow>, ranges: seq<OffsetRange>,
                                                  logs: map<int, Log>, i: nat, j: nat)
    requires TightHull(rows, ranges)
    requires i < |rows| && IsValidRow(rows[i])
    requires j < |LogOf(logs, rows[i].partition)| && LogOf(logs, rows[i].partition)[j].offset == rows[i].offset
    ensures LogOf(logs, rows[i].partition)[j] in AllSelected(logs, ranges)
  {
    IcebergSelects(rows, ranges, logs, LogOf(logs, rows[i].partition)[j]);
  }

  // ---- Replay and the Flink operator ----

  /** The operator has been given every record of every log. */
  ghost predicate AllProcessed(logs: map<int, Log>, ds: seq<Delivery>) {
    forall p, i :: p in logs && 0 <= i < |logs[p]| ==> WasDelivered(ds, logs[p][i].value)
  }

  ghost predicate WasDelivered(ds: seq<Delivery>, value: OrderBookEvent) {
    exists j :: 0 <= j < |ds| && ds[j].msg == value
  }

  lemma {:induction false} SelectedWasDelivered(logs: map<int, Log>, ranges: seq<OffsetRange>, ds: seq<Delivery>,
                                                record: KafkaRecord)
    requires AllProcessed(logs, ds) && record in AllSelected(logs, ranges)
    ensures WasDelivered(ds, record.value)
  {
    AllSelectedIff(logs, ranges, record);
    var k :| 0 <= k < |ranges| && record in LogOf(logs, ranges[k].partition) && InRange(ranges[k], record);
    var p := ranges[k].partition;
    var i :| 0 <= i < |LogOf(logs, p)| && LogOf(logs, p)[i] == record;
    assert WasDelivered(ds, logs[p][i].value);
  }

  lemma {:induction false} KeptAppend(ds: seq<Delivery>, es: seq<Delivery>, keepDs: seq<bool>, keepEs: seq<bool>)
    requires |keepDs| == |ds| && |keepEs| == |es|
    requires forall i :: 0 <= i < |ds| ==> keepDs[i]
    ensures Kept(ds + es, keepDs + keepEs) == ds + Kept(es, keepEs)
    decreases |ds| + |es|
  {
    if es != [] {
      var n := |es| - 1;
      assert (ds + es)[..|ds| + n] == ds + es[..n] && (keepDs + keepEs)[..|ds| + n] == keepDs + keepEs[..n];
      KeptAppend(ds, es[..n], keepDs, keepEs[..n]);
    } else if ds != [] {
      var n := |ds| - 1;
      assert ds + es == ds && keepDs + keepEs == keepDs;
      assert ds[..n] + [] == ds[..n] && keepDs[..n] + [] == keepDs[..n];
      KeptAppend(ds[..n], [], keepDs[..n], []);
    }
  }

  /** A live replay is idempotent for the operator. Once it has processed the logs, let the stream go on
      with any mixture of new records and records a replay of any ranges under any budget sent (keep marks
      the new ones), in any order and multiplicity, whatever the wall clock and the new offsets: it emits
      the rows and reaches the state it would without the replayed records. */
  lemma {:induction false} LiveReplayIsIdempotent(
    op: OpState, logs: map<int, Log>, ranges: seq<OffsetRange>, budget: Option<int>,
    ds: seq<Delivery>, tail: seq<Delivery>, keep: seq<bool>)
    requires AllProcessed(logs, ds)
    requires |keep| == |tail|
    requires forall i :: 0 <= i < |tail| && !keep[i] ==>
               tail[i].msg in Values(Budgeted(AllSelected(logs, ranges), budget))
    ensures RunOp(op, ds + tail) == RunOp(op, ds + Kept(tail, keep))
  {
    var all := seq(|ds|, i => true);
    forall i | 0 <= i < |ds + tail| && !(all + keep)[i] ensures SentBefore(ds + tail, i) {
      var records := Budgeted(AllSelected(logs, ranges), budget);
      var d := tail[i - |ds|];
      assert d == (ds + tail)[i];
      var k :| 0 <= k < |records| && Values(records)[k] == d.msg;
      assert records[k] in AllSelected(logs, ranges);
      SelectedWasDelivered(logs, ranges, ds, records[k]);
      var j :| 0 <= j < |ds| && ds[j].msg == d.msg;
      assert (ds + tail)[j] == ds[j];
    }
    ResendingIsInvisible(op, ds + tail, all + keep);
    KeptAppend(ds, tail, all, keep);
  }
}
