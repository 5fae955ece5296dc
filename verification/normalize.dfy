/** The stateful Flink operator (flink/jobs/normalize.py): per-key dedup by update id, late drop, book
    state, and one book-ticker row per applied diff once both sides have a level. */
module Normalize {
  import opened Wrappers
  import opened Books
  import opened Logic

  /** A Kafka record as the operator sees it, with the wall clock when it is processed. */
  datatype Delivery = Delivery(msg: OrderBookEvent, partition: int, offset: int, nowMs: int) {
    function Id(): int {
      msg.diff.last
    }

    function Key(): string {
      KafkaKey(msg.exchange, msg.symbol)
    }
  }

  datatype Row = Row(exchange: string, symbol: string, exchangeEventTsMs: int, ingestTsMs: int, processedTsMs: int,
                     lastUpdateId: int, firstUpdateId: int,
                     bestBidPrice: real, bestBidQty: real, bestAskPrice: real, bestAskQty: real,
                     spread: real, midPrice: real, imbalance: real,
                     srcTopic: string, srcPartition: int, srcOffset: int) {
    function Key(): string {
      KafkaKey(exchange, symbol)
    }
  }

  const LATE_THRESHOLD_SECONDS := 30
  const TOPIC_RAW := "market.raw.orderbook"

  function KafkaKey(exchange: string, symbol: string): string {
    exchange + "#" + symbol
  }

  predicate IsLate(d: Delivery) {
    (d.nowMs - d.msg.diff.timeMs) as real / 1000.0 > LATE_THRESHOLD_SECONDS as real
  }

  /** The two state values of one key; None where Flink's state is still empty. */
  datatype KeyState = KeyState(last: Option<int>, book: Option<DictBook>) {
    function BookOrEmpty(): DictBook {
      match book
      case Some(b) => b
      case None => DictBook([], [])
    }
  }

  const FRESH := KeyState(None, None)

  datatype KeyResult = KeyResult(state: KeyState, rows: seq<Row>)

  predicate IsDuplicate(last: Option<int>, id: int) {
    last.Some? && id <= last.value
  }

  function NextBook(book: DictBook, diff: DepthEvent): DictBook {
    DictBook(ApplyDict(book.bids, diff.bids), ApplyDict(book.asks, diff.asks))
  }

  /** The row for a book, none while a side is empty. */
  function RowsOf(book: DictBook, d: Delivery): seq<Row> {
    var bb, ba := BestQuote(Bid, book.bids), BestQuote(Ask, book.asks);
    if bb.None? || ba.None? then []
    else [Row(d.msg.exchange, d.msg.symbol, d.msg.diff.timeMs, d.msg.ingestMs, d.nowMs,
              d.msg.diff.last, d.msg.diff.first,
              bb.value.price, bb.value.qty, ba.value.price, ba.value.qty,
              Spread(bb.value.price, ba.value.price), MidPrice(bb.value.price, ba.value.price),
              Imbalance(book.bids, book.asks, DEFAULT_DEPTH), TOPIC_RAW, d.partition, d.offset)]
  }

  function StepKey(s: KeyState, d: Delivery): KeyResult {
    if IsDuplicate(s.last, d.Id()) then KeyResult(s, [])
    else if IsLate(d) then KeyResult(KeyState(Some(d.Id()), s.book), [])
    else
      var book := NextBook(s.BookOrEmpty(), d.msg.diff);
      KeyResult(KeyState(Some(d.Id()), Some(book)), RowsOf(book, d))
  }

  function RunKey(s: KeyState, ds: seq<Delivery>): KeyResult {
    if ds == [] then KeyResult(s, [])
    else
      var n := |ds| - 1;
      var before := RunKey(s, ds[..n]);
      var step := StepKey(before.state, ds[n]);
      KeyResult(step.state, before.rows + step.rows)
  }

  /** The state of the whole operator: Flink keeps each value per key. */
  datatype OpState = OpState(lastIds: map<string, int>, books: map<string, DictBook>) {
    function KeyAt(key: string): KeyState {
      KeyState(if key in lastIds then Some(lastIds[key]) else None,
               if key in books then Some(books[key]) else None)
    }

    function With(key: string, s: KeyState): OpState {
      OpState(if s.last.Some? then lastIds[key := s.last.value] else lastIds - {key},
              if s.book.Some? then books[key := s.book.value] else books - {key})
    }
  }

  datatype OpResult = OpResult(state: OpState, rows: seq<Row>)

  function StepOp(op: OpState, d: Delivery): OpResult {
    var step := StepKey(op.KeyAt(d.Key()), d);
    OpResult(op.With(d.Key(), step.state), step.rows)
  }

  function RunOp(op: OpState, ds: seq<Delivery>): OpResult {
    if ds == [] then OpResult(op, [])
    else
      var n := |ds| - 1;
      var before := RunOp(op, ds[..n]);
      var step := StepOp(before.state, ds[n]);
      OpResult(step.state, before.rows + step.rows)
  }

  class OrderBookProcessor {
    var lastIdState: map<string, int>
    var bookState: map<string, DictBook>

    function State(): OpState
      reads this
    {
      OpState(lastIdState, bookState)
    }

    constructor ()
      ensures State() == OpState(map[], map[])
    {
      lastIdState, bookState := map[], map[];
    }

    /** process_element: dedup, then late drop (after the id is recorded), then the book, then a row. */
    method ProcessElement(value: Delivery) returns (rows: seq<Row>)
      modifies this
      ensures OpResult(State(), rows) == StepOp(old(State()), value)
    {
      var key, id := value.Key(), value.Id();
      if key in lastIdState && id <= lastIdState[key] {
        assert State() == State().With(key, State().KeyAt(key));
        return [];
      }
      lastIdState := lastIdState[key := id];
      if IsLate(value) {
        return [];
      }
      var stored := if key in bookState then bookState[key] else DictBook([], []);
      var book := new DepthBook(stored);
      book.ApplyDepthDiff(value.msg.diff.bids, value.msg.diff.asks);
      bookState := bookState[key := DictBook(book.bids, book.asks)];
      var bb := BestQuote(Bid, book.bids);
      var ba := BestQuote(Ask, book.asks);
      if bb.None? || ba.None? {
        return [];
      }
      var bid, ask := bb.value, ba.value;
      return [Row(value.msg.exchange, value.msg.symbol, value.msg.diff.timeMs, value.msg.ingestMs, value.nowMs,
                  id, value.msg.diff.first, bid.price, bid.qty, ask.price, ask.qty,
                  Spread(bid.price, ask.price), MidPrice(bid.price, ask.price),
                  Imbalance(book.bids, book.asks, DEFAULT_DEPTH), TOPIC_RAW, value.partition, value.offset)];
    }
  }

  // ---- The key ----

  lemma {:induction false} KeyPrefix(e1: string, s1: string, e2: string, s2: string)
    requires KafkaKey(e1, s1) == KafkaKey(e2, s2)
    requires |e1| < |e2|
    ensures e2[..|e1|] == e1 && e2[|e1|] == '#'
    ensures s1 == e2[|e1| + 1..] + "#" + s2
  {
    var k := KafkaKey(e1, s1);
    assert e2 == k[..|e2|] && e1 == k[..|e1|] && k[|e1|] == '#';
    assert s1 == k[|e1| + 1..];
    assert k[|e1| + 1..] == e2[|e1| + 1..] + ("#" + s2);
  }

  lemma {:induction false} CollisionsCollide(e1: string, s1: string, e2: string, s2: string)
    ensures (exists m: string :: e2 == e1 + "#" + m && s1 == m + "#" + s2) ==> KafkaKey(e1, s1) == KafkaKey(e2, s2)
  {
  }

  /** Two exchange and symbol pairs get the same key exactly when they are the same pair, or one
      exchange name continues the other with a '#' and the part after it has moved to the symbol. */
  lemma {:induction false} KeyCollisions(e1: string, s1: string, e2: string, s2: string)
    ensures KafkaKey(e1, s1) == KafkaKey(e2, s2)
            <==> (e1 == e2 && s1 == s2)
                 || (exists m: string :: e2 == e1 + "#" + m && s1 == m + "#" + s2)
                 || (exists m: string :: e1 == e2 + "#" + m && s2 == m + "#" + s1)
  {
    if KafkaKey(e1, s1) == KafkaKey(e2, s2) {
      if |e1| < |e2| {
        KeyPrefix(e1, s1, e2, s2);
        assert e2 == e1 + "#" + e2[|e1| + 1..];
      } else if |e2| < |e1| {
        KeyPrefix(e2, s2, e1, s1);
        assert e1 == e2 + "#" + e1[|e2| + 1..];
      } else {
        var k := KafkaKey(e1, s1);
        assert e1 == k[..|e1|] && e2 == k[..|e1|];
        assert s1 == k[|e1| + 1..] && s2 == k[|e1| + 1..];
      }
    } else {
      CollisionsCollide(e1, s1, e2, s2);
      CollisionsCollide(e2, s2, e1, s1);
    }
  }

  /** On exchange names without '#' the key identifies the pair. */
  lemma {:induction false} KeyInjective(e1: string, s1: string, e2: string, s2: string)
    requires '#' !in e1 && '#' !in e2
    ensures KafkaKey(e1, s1) == KafkaKey(e2, s2) ==> e1 == e2 && s1 == s2
  {
    if KafkaKey(e1, s1) == KafkaKey(e2, s2) {
      KeyCollisions(e1, s1, e2, s2);
      if |e1| < |e2| {
        KeyPrefix(e1, s1, e2, s2);
      } else if |e2| < |e1| {
        KeyPrefix(e2, s2, e1, s1);
      }
    }
  }

  // ---- Keys do not see each other ----

  function ForKey(ds: seq<Delivery>, key: string): seq<Delivery> {
    if ds == [] then []
    else
      var n := |ds| - 1;
      ForKey(ds[..n], key) + if ds[n].Key() == key then [ds[n]] else []
  }

  function RowsFor(rows: seq<Row>, key: string): seq<Row> {
    if rows == [] then []
    else
      var n := |rows| - 1;
      RowsFor(rows[..n], key) + if rows[n].Key() == key then [rows[n]] else []
  }

  lemma {:induction false} RowsForStep(rows: seq<Row>, step: seq<Row>, key: string)
    requires |step| <= 1
    ensures RowsFor(rows + step, key)
            == if step != [] && step[0].Key() == key then RowsFor(rows, key) + step else RowsFor(rows, key)
  {
    if step == [] {
      assert rows + step == rows;
    } else {
      assert (rows + step)[..|rows|] == rows;
    }
  }

  lemma {:induction false} RowsCarryTheKey(s: KeyState, d: Delivery)
    ensures var rows := StepKey(s, d).rows;
            |rows| <= 1 && (rows != [] ==> rows[0].Key() == d.Key())
  {
  }

  lemma {:induction false} RunKeyStep(s: KeyState, ds: seq<Delivery>, d: Delivery)
    ensures RunKey(s, ds + [d])
            == KeyResult(StepKey(RunKey(s, ds).state, d).state,
                         RunKey(s, ds).rows + StepKey(RunKey(s, ds).state, d).rows)
  {
  }

  /** Keyed isolation: for every key, the rows and the final state are those of running that key's
      part of the stream alone. */
  lemma {:induction false} KeyedIsolation(op: OpState, ds: seq<Delivery>, key: string)
    ensures RunKey(op.KeyAt(key), ForKey(ds, key))
            == KeyResult(RunOp(op, ds).state.KeyAt(key), RowsFor(RunOp(op, ds).rows, key))
  {
    if ds != [] {
      hide StepKey, KafkaKey;
      var n := |ds| - 1;
      var front, d := ds[..n], ds[n];
      KeyedIsolation(op, front, key);
      var before := RunOp(op, front);
      RowsCarryTheKey(before.state.KeyAt(d.Key()), d);
      RowsForStep(before.rows, StepOp(before.state, d).rows, key);
      if d.Key() == key {
        RunKeyStep(op.KeyAt(key), ForKey(front, key), d);
      } else {
        assert ForKey(ds, key) == ForKey(front, key);
      }
      var step := StepOp(before.state, d);
      assert RunOp(op, ds) == OpResult(step.state, before.rows + step.rows);
      if d.Key() == key && step.rows == [] {
        assert RowsFor(before.rows, key) + step.rows == RowsFor(before.rows, key);
      }
    }
  }

  lemma {:induction false} SameKeysSameState(a: OpState, b: OpState)
    requires forall key :: a.KeyAt(key) == b.KeyAt(key)
    ensures a == b
  {
    forall key ensures key in a.lastIds <==> key in b.lastIds {
      assert a.KeyAt(key) == b.KeyAt(key);
    }
    forall key ensures key in a.books <==> key in b.books {
      assert a.KeyAt(key) == b.KeyAt(key);
    }
    forall key | key in a.lastIds ensures a.lastIds[key] == b.lastIds[key] {
      assert a.KeyAt(key) == b.KeyAt(key);
    }
    forall key | key in a.books ensures a.books[key] == b.books[key] {
      assert a.KeyAt(key) == b.KeyAt(key);
    }
  }

  /** Any reordering that keeps each key's order is invisible: same state, same rows for each key. */
  lemma {:induction false} CrossKeyOrderInvisible(op: OpState, ds: seq<Delivery>, es: seq<Delivery>)
    requires forall key :: ForKey(ds, key) == ForKey(es, key)
    ensures RunOp(op, ds).state == RunOp(op, es).state
    ensures forall key :: RowsFor(RunOp(op, ds).rows, key) == RowsFor(RunOp(op, es).rows, key)
  {
    forall key
      ensures RunOp(op, ds).state.KeyAt(key) == RunOp(op, es).state.KeyAt(key)
      ensures RowsFor(RunOp(op, ds).rows, key) == RowsFor(RunOp(op, es).rows, key)
    {
      assert ForKey(ds, key) == ForKey(es, key);
      KeyedIsolation(op, ds, key);
      KeyedIsolation(op, es, key);
    }
    SameKeysSameState(RunOp(op, ds).state, RunOp(op, es).state);
  }

  // ---- Dedup ----

  /** The rows carry strictly increasing ids, newer than the id stored at the start and no newer than the
      one stored now. */
  ghost predicate RowsAreNew(last: Option<int>, r: KeyResult) {
    && (forall i, j :: 0 <= i < j < |r.rows| ==> r.rows[i].lastUpdateId < r.rows[j].lastUpdateId)
    && (forall i :: 0 <= i < |r.rows| ==>
          !IsDuplicate(last, r.rows[i].lastUpdateId) && IsDuplicate(r.state.last, r.rows[i].lastUpdateId))
    && (last.Some? ==> IsDuplicate(r.state.last, last.value))
  }

  lemma {:induction false} RowsAreNewStep(last: Option<int>, r: KeyResult, d: Delivery)
    requires RowsAreNew(last, r)
    ensures var step := StepKey(r.state, d); RowsAreNew(last, KeyResult(step.state, r.rows + step.rows))
  {
    var step := StepKey(r.state, d);
    var rows := r.rows + step.rows;
    forall i | 0 <= i < |r.rows| ensures rows[i] == r.rows[i] {
    }
    if step.rows != [] {
      assert step.rows == [step.rows[0]] && step.rows[0].lastUpdateId == d.Id();
      assert !IsDuplicate(r.state.last, d.Id());
    }
  }

  /** Every row of a key has an id of its own, newer than all processed before the run: a key never emits
      two rows for one update id, and its rows come in the order of their ids. */
  lemma {:induction false} RowIdsIncrease(s: KeyState, ds: seq<Delivery>)
    ensures RowsAreNew(s.last, RunKey(s, ds))
  {
    if ds != [] {
      hide StepKey, RowsAreNew;
      var n := |ds| - 1;
      RowIdsIncrease(s, ds[..n]);
      RowsAreNewStep(s.last, RunKey(s, ds[..n]), ds[n]);
    }
  }

  /** The event's id exceeds the starting id and every earlier event's id. */
  ghost predicate IsRecord(last: Option<int>, ds: seq<Delivery>, i: nat)
    requires i < |ds|
  {
    !IsDuplicate(last, ds[i].Id()) && forall j :: 0 <= j < i ==> ds[j].Id() < ds[i].Id()
  }

  /** Only the events that are records. */
  ghost function Records(last: Option<int>, ds: seq<Delivery>): seq<Delivery> {
    if ds == [] then []
    else
      var n := |ds| - 1;
      Records(last, ds[..n]) + if IsRecord(last, ds, n) then [ds[n]] else []
  }

  /** After a run the stored id is the highest of the starting id and all ids received, late ones
      included. */
  lemma {:induction false} StoredIdIsHighest(s: KeyState, ds: seq<Delivery>)
    ensures var last := RunKey(s, ds).state.last;
            (s.last.Some? ==> IsDuplicate(last, s.last.value))
            && (forall j :: 0 <= j < |ds| ==> IsDuplicate(last, ds[j].Id()))
            && (last.Some? ==> last == s.last || exists j :: 0 <= j < |ds| && ds[j].Id() == last.value)
  {
    if ds != [] {
      var n := |ds| - 1;
      var front := ds[..n];
      StoredIdIsHighest(s, front);
      var before, last := RunKey(s, front).state.last, RunKey(s, ds).state.last;
      if last != s.last && last == before && last.Some? {
        var j :| 0 <= j < |front| && front[j].Id() == last.value;
        assert ds[j].Id() == last.value;
      }
      forall j | 0 <= j < |ds| ensures IsDuplicate(last, ds[j].Id()) {
        if j < n {
          assert front[j] == ds[j];
        }
      }
    }
  }

  lemma {:induction false} RecordIffAccepted(s: KeyState, ds: seq<Delivery>)
    requires ds != []
    ensures IsRecord(s.last, ds, |ds| - 1)
            <==> !IsDuplicate(RunKey(s, ds[..|ds| - 1]).state.last, ds[|ds| - 1].Id())
  {
    var n := |ds| - 1;
    var front := ds[..n];
    StoredIdIsHighest(s, front);
    var last := RunKey(s, front).state.last;
    assert forall j :: 0 <= j < n ==> front[j] == ds[j];
    if IsRecord(s.last, ds, n) && last.Some? && last != s.last {
      var j :| 0 <= j < |front| && front[j].Id() == last.value;
      assert ds[j].Id() < ds[n].Id();
    }
  }

  /** Dedup erases everything that is not a record: same rows, same final state. */
  lemma {:induction false} DedupIsErasure(s: KeyState, ds: seq<Delivery>)
    ensures RunKey(s, ds) == RunKey(s, Records(s.last, ds))
  {
    if ds != [] {
      var n := |ds| - 1;
      DedupIsErasure(s, ds[..n]);
      RecordIffAccepted(s, ds);
      var kept := Records(s.last, ds[..n]);
      if IsRecord(s.last, ds, n) {
        assert (kept + [ds[n]])[..|kept|] == kept;
      } else {
        assert kept + [] == kept;
        assert RunKey(s, ds[..n]).rows + [] == RunKey(s, ds[..n]).rows;
      }
    }
  }

  /** The events kept by a mask. */
  function Kept(ds: seq<Delivery>, keep: seq<bool>): seq<Delivery>
    requires |keep| == |ds|
  {
    if ds == [] then []
    else
      var n := |ds| - 1;
      Kept(ds[..n], keep[..n]) + if keep[n] then [ds[n]] else []
  }

  /** Event i comes after an event of the same key whose id is at least as high. */
  ghost predicate SentBefore(ds: seq<Delivery>, i: nat)
    requires i < |ds|
  {
    exists j :: 0 <= j < i && ds[j].Key() == ds[i].Key() && ds[i].Id() <= ds[j].Id()
  }

  lemma {:induction false} OpRemembers(op: OpState, ds: seq<Delivery>, j: nat)
    requires j < |ds|
    ensures IsDuplicate(RunOp(op, ds).state.KeyAt(ds[j].Key()).last, ds[j].Id())
  {
    var n := |ds| - 1;
    if j < n {
      OpRemembers(op, ds[..n], j);
    }
  }

  /** One event is invisible exactly when its key has already recorded an id at least as high. */
  lemma {:induction false} InvisibleIffDuplicate(op: OpState, d: Delivery)
    ensures StepOp(op, d) == OpResult(op, []) <==> IsDuplicate(op.KeyAt(d.Key()).last, d.Id())
  {
  }

  /** Re-sending is invisible. Let a stream be obtained from another by inserting, anywhere, in any
      order and any number of times, events whose key has already seen an id at least as high (for
      instance the same event). The operator ends in the same state and emits the same rows. */
  lemma {:induction false} ResendingIsInvisible(op: OpState, ds: seq<Delivery>, keep: seq<bool>)
    requires |keep| == |ds|
    requires forall i :: 0 <= i < |ds| && !keep[i] ==> SentBefore(ds, i)
    ensures RunOp(op, ds) == RunOp(op, Kept(ds, keep))
  {
    if ds != [] {
      var n := |ds| - 1;
      var front := ds[..n];
      forall i | 0 <= i < n && !keep[..n][i] ensures SentBefore(front, i) {
        assert SentBefore(ds, i);
        var j :| 0 <= j < i && ds[j].Key() == ds[i].Key() && ds[i].Id() <= ds[j].Id();
        assert front[j] == ds[j];
      }
      ResendingIsInvisible(op, front, keep[..n]);
      var kept := Kept(front, keep[..n]);
      if keep[n] {
        assert (kept + [ds[n]])[..|kept|] == kept;
      } else {
        assert SentBefore(ds, n);
        var j :| 0 <= j < n && ds[j].Key() == ds[n].Key() && ds[n].Id() <= ds[j].Id();
        OpRemembers(op, front, j);
        InvisibleIffDuplicate(RunOp(op, front).state, ds[n]);
        assert kept + [] == kept;
        assert RunOp(op, front).rows + [] == RunOp(op, front).rows;
      }
    }
  }

  // ---- One event, in plain terms ----

  function BookOf(op: OpState, key: string): DictBook {
    if key in op.books then op.books[key] else DictBook([], [])
  }

  /** The book of a key behind a diff. */
  function Applied(op: OpState, d: Delivery): DictBook {
    var book := BookOf(op, d.msg.exchange + "#" + d.msg.symbol);
    DictBook(ApplyDict(book.bids, d.msg.diff.bids), ApplyDict(book.asks, d.msg.diff.asks))
  }

  /** What one event does. An id not above the recorded one changes nothing. A higher one is recorded under
      "exchange#symbol"; when the event is more than 30,000 milliseconds behind the wall clock nothing else
      happens, otherwise the diff is applied to the key's book and no other one. */
  lemma {:induction false} OneEvent(op: OpState, d: Delivery)
    ensures var key, id := d.msg.exchange + "#" + d.msg.symbol, d.msg.diff.last;
            var r := StepOp(op, d);
            if key in op.lastIds && id <= op.lastIds[key] then r == OpResult(op, [])
            else
              && r.state.lastIds == op.lastIds[key := id]
              && (d.nowMs - d.msg.diff.timeMs > 30000 ==> r.state.books == op.books && r.rows == [])
              && (d.nowMs - d.msg.diff.timeMs <= 30000 ==> r.state.books == op.books[key := Applied(op, d)])
  {
    var key := d.Key();
    assert op.With(key, op.KeyAt(key)) == op;
    if !IsDuplicate(op.KeyAt(key).last, d.Id()) && IsLate(d) {
      assert op.With(key, StepKey(op.KeyAt(key), d).state).books == op.books;
    }
  }

  /** The row of an event. One is emitted exactly for a new event at most 30,000 milliseconds behind the wall
      clock that leaves levels on both sides, and every field of it is the event's or computed from the key's
      new book: the quotes are best levels, spread and mid price theirs, and the imbalance, where prices differ
      as numbers, the share of the bids in the volume of the levels with fewer than five better ones. */
  lemma {:induction false} RowOfEvent(op: OpState, d: Delivery)
    ensures var key, id := d.msg.exchange + "#" + d.msg.symbol, d.msg.diff.last;
            var rows, book := StepOp(op, d).rows, Applied(op, d);
            |rows| <= 1
            && (rows != [] <==> !(key in op.lastIds && id <= op.lastIds[key])
                                && d.nowMs - d.msg.diff.timeMs <= 30000 && book.bids != [] && book.asks != [])
            && forall row :: row in rows ==> RowTells(book, d, row)
  {
    hide RowTells, RowsOf, ApplyDict;
    OneEvent(op, d);
    RowsTell(Applied(op, d), d);
  }

  lemma {:induction false} RowsTell(book: DictBook, d: Delivery)
    ensures |RowsOf(book, d)| <= 1 && (RowsOf(book, d) != [] <==> book.bids != [] && book.asks != [])
    ensures forall row :: row in RowsOf(book, d) ==> RowTells(book, d, row)
  {
    hide Imbalance, RowQuotes, RowWeighs;
    if book.bids != [] && book.asks != [] {
      var row := RowsOf(book, d)[0];
      RowQuotesBest(book, d, row);
      RowWeighsTop(book, d, row);
    }
  }

  lemma {:induction false} RowQuotesBest(book: DictBook, d: Delivery, row: Row)
    requires row in RowsOf(book, d)
    ensures RowQuotes(book, row)
  {
    hide Imbalance, BestOf;
    BestQuoteIsListed(book.bids, book.asks);
  }

  lemma {:induction false} RowWeighsTop(book: DictBook, d: Delivery, row: Row)
    requires row in RowsOf(book, d)
    ensures RowWeighs(book, row)
  {
    assert row.imbalance == Imbalance(book.bids, book.asks, 5);
    hide RowsOf, Imbalance, RankVolume, NumericallyDistinct;
    if NumericallyDistinct(book.bids) && NumericallyDistinct(book.asks) {
      ImbalanceByRank(book.bids, book.asks, 5);
    }
  }

  lemma {:induction false} BestQuoteIsListed(bids: Dict, asks: Dict)
    requires bids != [] && asks != []
    ensures var bid, ask := BestOf(Bid, bids), BestOf(Ask, asks);
            && (exists i :: 0 <= i < |bids| && bids[i].price.value == bid.price.value
                            && bids[i].qty.value == bid.qty.value)
            && (exists i :: 0 <= i < |asks| && asks[i].price.value == ask.price.value
                            && asks[i].qty.value == ask.qty.value)
            && (forall i :: 0 <= i < |bids| ==> bids[i].price.value <= bid.price.value)
            && (forall i :: 0 <= i < |asks| ==> asks[i].price.value >= ask.price.value)
  {
    var bid, ask := BestOf(Bid, bids), BestOf(Ask, asks);
    hide BestOf;
    var i :| 0 <= i < |bids| && bids[i] == bid;
    var j :| 0 <= j < |asks| && asks[j] == ask;
    assert forall i :: 0 <= i < |bids| ==> !Better(Bid, bids[i].price, bid.price);
    assert forall i :: 0 <= i < |asks| ==> !Better(Ask, asks[i].price, ask.price);
  }

  ghost predicate RowTells(book: DictBook, d: Delivery, row: Row) {
    && row.exchange == d.msg.exchange && row.symbol == d.msg.symbol
    && row.exchangeEventTsMs == d.msg.diff.timeMs && row.ingestTsMs == d.msg.ingestMs && row.processedTsMs == d.nowMs
    && row.lastUpdateId == d.msg.diff.last && row.firstUpdateId == d.msg.diff.first
    && row.srcTopic == "market.raw.orderbook" && row.srcPartition == d.partition && row.srcOffset == d.offset
    && RowQuotes(book, row) && RowWeighs(book, row)
  }

  /** The quotes are levels of the book that none beats, and spread and mid price are theirs. */
  ghost predicate RowQuotes(book: DictBook, row: Row) {
    && (exists i :: 0 <= i < |book.bids|
                    && book.bids[i].price.value == row.bestBidPrice && book.bids[i].qty.value == row.bestBidQty)
    && (exists i :: 0 <= i < |book.asks|
                    && book.asks[i].price.value == row.bestAskPrice && book.asks[i].qty.value == row.bestAskQty)
    && (forall i :: 0 <= i < |book.bids| ==> book.bids[i].price.value <= row.bestBidPrice)
    && (forall i :: 0 <= i < |book.asks| ==> book.asks[i].price.value >= row.bestAskPrice)
    && row.spread == row.bestAskPrice - row.bestBidPrice
    && row.midPrice == (row.bestBidPrice + row.bestAskPrice) / 2.0
  }

  ghost predicate RowWeighs(book: DictBook, row: Row) {
    && row.imbalance == Imbalance(book.bids, book.asks, 5)
    && (NumericallyDistinct(book.bids) && NumericallyDistinct(book.asks) ==>
          var b, a := RankVolume(Bid, book.bids, book.bids, 5), RankVolume(Ask, book.asks, book.asks, 5);
          row.imbalance == if b + a > 0.0 then b / (b + a) else 0.5)
  }

  // ---- Quantities ----

  ghost predicate BooksPositive(op: OpState) {
    forall key :: key in op.books ==> Positive(op.books[key].bids) && Positive(op.books[key].asks)
  }

  ghost predicate QuantitiesValid(d: Delivery) {
    NonNegative(d.msg.diff.bids) && NonNegative(d.msg.diff.asks)
  }

  ghost predicate RowIsPositive(row: Row) {
    row.bestBidQty > 0.0 && row.bestAskQty > 0.0 && 0.0 < row.imbalance < 1.0
  }

  lemma {:induction false} PositiveRows(book: DictBook, d: Delivery)
    requires Positive(book.bids) && Positive(book.asks)
    ensures forall row :: row in RowsOf(book, d) ==> RowIsPositive(row)
  {
    if book.bids != [] && book.asks != [] {
      ImbalanceInsideUnitInterval(book.bids, book.asks, DEFAULT_DEPTH);
    }
  }

  /** When no level of the stream has a negative quantity, the stored books hold positive quantities only,
      and every row of the run, of every key, quotes positive quantities and has its imbalance strictly
      between 0 and 1. */
  lemma {:induction false} EveryRowIsPositive(op: OpState, ds: seq<Delivery>)
    requires BooksPositive(op)
    requires forall i :: 0 <= i < |ds| ==> QuantitiesValid(ds[i])
    ensures BooksPositive(RunOp(op, ds).state)
    ensures forall row :: row in RunOp(op, ds).rows ==> RowIsPositive(row)
  {
    if ds != [] {
      var n := |ds| - 1;
      EveryRowIsPositive(op, ds[..n]);
      PositiveStep(RunOp(op, ds[..n]).state, ds[n]);
    }
  }

  lemma {:induction false} PositiveStep(op: OpState, d: Delivery)
    requires BooksPositive(op) && QuantitiesValid(d)
    ensures BooksPositive(StepOp(op, d).state)
    ensures forall row :: row in StepOp(op, d).rows ==> RowIsPositive(row)
  {
    var book := op.KeyAt(d.Key()).BookOrEmpty();
    ApplyDictPositive(book.bids, d.msg.diff.bids);
    ApplyDictPositive(book.asks, d.msg.diff.asks);
    PositiveRows(NextBook(book, d.msg.diff), d);
  }
}
