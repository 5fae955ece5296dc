/** Concrete runs on which documented promises fail. */
module Counterexamples {
  import opened Wrappers
  import opened Books
  import opened Exchange
  import opened OrderBooks
  import opened Client
  import opened Logic
  import opened Normalize
  import opened Pipeline
  import opened Consistency
  import opened Rows
  import opened Iceberg
  import opened Replay

  const BID100 := Slot(Bid, Decimal("100.0", 100.0))
  const ASK90 := Slot(Ask, Decimal("90.0", 90.0))

  /** A bid appears, is deleted while the client reconnects, and then an ask appears below it. */
  const RECONNECT: seq<Update> := [Update(BID100, ONE), Update(BID100, ZERO), Update(ASK90, ONE)]
  const FIRST_DIFF := DepthEvent(1, 1, [Level(BID100.price, ONE)], [], 0)
  const DELETE_DIFF := DepthEvent(2, 2, [Level(BID100.price, ZERO)], [], 0)
  const SECOND_DIFF := DepthEvent(3, 3, [], [Level(ASK90.price, ONE)], 0)

  lemma {:induction false} ReconnectBooks()
    ensures BookAt(RECONNECT, 0) == Book(map[], map[])
    ensures BookAt(RECONNECT, 1) == Book(map[BID100.price := ONE], map[])
    ensures BookAt(RECONNECT, 2) == Book(map[], map[])
    ensures BookAt(RECONNECT, 3) == Book(map[], map[ASK90.price := ONE])
  {
  }

  lemma {:induction false} SingleUpdateFaithful(ex: seq<Update>, k: nat, e: DepthEvent)
    requires 1 <= k <= |ex| && e.first == k && e.last == k
    requires var u := ex[k - 1];
             e.SideOf(u.slot.side) == [Level(u.slot.price, u.qty)]
             && forall side :: side != u.slot.side ==> e.SideOf(side) == []
    requires Effect(ex[k - 1].qty) == BookAt(ex, k).At(ex[k - 1].slot)
    ensures Faithful(ex, e)
  {
    var u := ex[k - 1];
    assert e.SideOf(u.slot.side)[0].price == u.slot.price;
    forall slot ensures Lists(e, slot) <==> Touched(ex, k, k, slot) {
      if slot == u.slot {
        assert ex[k - 1].slot == slot;
      }
    }
    assert QuantitiesMatch(ex, e, u.slot.side) by {
      assert Slot(u.slot.side, u.slot.price) == u.slot;
    }
    var other := if u.slot.side == Bid then Ask else Bid;
    assert e.SideOf(other) == [];
  }

  const SESSION_ONE := Feed([], false, Some(DepthSnapshot(0, [], [])), [LiveFrame(Depth(FIRST_DIFF), 0)], None, true)
  const SESSION_TWO := Feed([], false, Some(DepthSnapshot(2, [], [])), [LiveFrame(Depth(SECOND_DIFF), 0)], None, true)

  /** A session with an empty buffer and one live diff that continues the snapshot. */
  lemma {:induction false} OneDiffSession(symbol: string, feed: Feed, snapshot: DepthSnapshot,
                                          e: DepthEvent, nowMs: int)
    requires feed == Feed([], false, Some(snapshot), [LiveFrame(Depth(e), nowMs)], None, true)
    requires snapshot.last < e.last && e.first <= snapshot.last + 1
    ensures SessionSucceeds(symbol, feed)
    ensures SessionProduced(symbol, feed) == [ToOrderBookEvent(symbol, e, nowMs)]
  {
    var message := ToOrderBookEvent(symbol, e, nowMs);
    assert feed.live[..0] == [];
    assert MessagesOf(symbol, feed.live) == MessagesOf(symbol, feed.live[..0]) + [message] == [message];
    assert Diffs([message]) == [e] && [e][..0] == [];
    assert LiveStart(feed) == Some(StartOf(snapshot));
    assert Run(StartOf(snapshot), [e]).gapAt.None?;
  }

  lemma {:induction false} ReconnectRows(d1: Delivery, d2: Delivery)
    requires d1.msg.diff == FIRST_DIFF && d2.msg.diff == SECOND_DIFF && !IsLate(d1) && !IsLate(d2)
    ensures RunKey(FRESH, [d1, d2]).rows
            == RowsOf(DictBook([Level(BID100.price, ONE)], [Level(ASK90.price, ONE)]), d2)
  {
    var bids, asks: Dict := [Level(BID100.price, ONE)], [Level(ASK90.price, ONE)];
    OneLevelDict(BID100.price);
    OneLevelDict(ASK90.price);
    assert [d1, d2][..1] == [d1] && [d1][..0] == [];
    assert RunKey(FRESH, []) == KeyResult(FRESH, []);
    assert RunKey(FRESH, [d1]) == KeyResult(KeyState(Some(1), Some(DictBook(bids, []))), []);
  }

  /** Across sessions the operator's book need not agree with the exchange. The updates between two
      sessions reach the new local book through the snapshot but never reach Kafka, and the operator
      does not notice the missing ids. Here both diffs are faithful, both snapshots full, the exchange is
      never crossed, both sessions succeed, and the operator, given what they produced, emits a row with
      a negative spread whose best bid the exchange has deleted. */
  lemma {:induction false} CrossSessionRowCanBeCrossed(symbol: string, ds: seq<Delivery>)
    requires DeliveredInTime(ProducedByAll(symbol, [SESSION_ONE, SESSION_TWO]), ds)
    ensures Faithful(RECONNECT, FIRST_DIFF) && Faithful(RECONNECT, SECOND_DIFF)
    ensures FullSnapshot(RECONNECT, SESSION_ONE.snapshot.value) && FullSnapshot(RECONNECT, SESSION_TWO.snapshot.value)
    ensures forall k :: 0 <= k <= |RECONNECT| ==> Uncrossed(BookAt(RECONNECT, k))
    ensures SessionSucceeds(symbol, SESSION_ONE) && SessionSucceeds(symbol, SESSION_TWO)
    ensures var rows := RunKey(FRESH, ds).rows;
            |rows| == 1 && rows[0].spread < 0.0 && !TrueRow(RECONNECT, rows[0])
  {
    hide SessionSucceeds;
    ReconnectBooks();
    SingleUpdateFaithful(RECONNECT, 1, FIRST_DIFF);
    SingleUpdateFaithful(RECONNECT, 3, SECOND_DIFF);
    forall k | 0 <= k <= |RECONNECT| ensures Uncrossed(BookAt(RECONNECT, k)) {
      assert k == 0 || k == 1 || k == 2 || k == 3;
    }
    OneDiffSession(symbol, SESSION_ONE, DepthSnapshot(0, [], []), FIRST_DIFF, 0);
    OneDiffSession(symbol, SESSION_TWO, DepthSnapshot(2, [], []), SECOND_DIFF, 0);
    ReconnectProduced(symbol);
    assert ds == [ds[0], ds[1]];
    ReconnectRows(ds[0], ds[1]);
  }

  lemma {:induction false} ReconnectProduced(symbol: string)
    ensures ProducedByAll(symbol, [SESSION_ONE, SESSION_TWO])
            == [ToOrderBookEvent(symbol, FIRST_DIFF, 0), ToOrderBookEvent(symbol, SECOND_DIFF, 0)]
  {
    hide SessionProduced;
    OneDiffSession(symbol, SESSION_ONE, DepthSnapshot(0, [], []), FIRST_DIFF, 0);
    OneDiffSession(symbol, SESSION_TWO, DepthSnapshot(2, [], []), SECOND_DIFF, 0);
    var feeds := [SESSION_ONE, SESSION_TWO];
    assert feeds[..1] == [SESSION_ONE] && [SESSION_ONE][..0] == [];
    assert ProducedByAll(symbol, feeds[..1]) == [] + SessionProduced(symbol, SESSION_ONE);
  }

  lemma {:induction false} OneLevelDict(price: Decimal)
    ensures ApplyDict([], [Level(price, ONE)]) == [Level(price, ONE)]
    ensures forall d: Dict :: ApplyDict(d, []) == d
  {
  }

  // ---- Within one session ----

  /** The first diff arrives while the snapshot is being fetched, the second one live. */
  const BUFFERED_SESSION :=
    Feed([Depth(FIRST_DIFF)], false, Some(DepthSnapshot(0, [], [])), [LiveFrame(Depth(DELETE_DIFF), 0)], None, true)

  /** A valid diff that is applied and never produced: it was buffered. */
  lemma {:induction false} BufferedDiffIsNotProduced(symbol: string)
    ensures SessionSucceeds(symbol, BUFFERED_SESSION)
    ensures AppliedDiffs(StartOf(DepthSnapshot(0, [], [])), SessionDiffs(symbol, BUFFERED_SESSION))
            == [FIRST_DIFF, DELETE_DIFF]
    ensures SessionProduced(symbol, BUFFERED_SESSION) == [ToOrderBookEvent(symbol, DELETE_DIFF, 0)]
    ensures FIRST_DIFF !in Diffs(SessionProduced(symbol, BUFFERED_SESSION))
  {
    var feed, s := BUFFERED_SESSION, StartOf(DepthSnapshot(0, [], []));
    var message := ToOrderBookEvent(symbol, DELETE_DIFF, 0);
    OneBuffered(FIRST_DIFF);
    OneMessage(symbol, DELETE_DIFF, 0);
    assert Diffs([message]) == [DELETE_DIFF];
    assert SessionDiffs(symbol, feed) == [FIRST_DIFF, DELETE_DIFF];
    TwoApplied(s, FIRST_DIFF, DELETE_DIFF);
  }

  lemma {:induction false} OneBuffered(e: DepthEvent)
    ensures BufferOf([Depth(e)]) == [e]
  {
    assert [Depth(e)][..0] == [];
  }

  lemma {:induction false} OneMessage(symbol: string, e: DepthEvent, nowMs: int)
    ensures MessagesOf(symbol, [LiveFrame(Depth(e), nowMs)]) == [ToOrderBookEvent(symbol, e, nowMs)]
  {
    assert [LiveFrame(Depth(e), nowMs)][..0] == [];
  }

  /** One session that skips an id. The stale first diff is produced, the frame of the second update cannot be
      parsed, and the third update continues the snapshot, so that nothing is noticed. */
  const GAP_SESSION :=
    Feed([], false, Some(DepthSnapshot(2, [], [])),
         [LiveFrame(Depth(FIRST_DIFF), 0), LiveFrame(Unparseable, 0), LiveFrame(Depth(SECOND_DIFF), 0)], None, true)

  /** A crossed row within one successful session: all diffs are faithful, the snapshot is full, and the
      exchange is never crossed. */
  lemma {:induction false} OneSessionRowCanBeCrossed(symbol: string, ds: seq<Delivery>)
    requires DeliveredInTime(SessionProduced(symbol, GAP_SESSION), ds)
    ensures Faithful(RECONNECT, FIRST_DIFF) && Faithful(RECONNECT, SECOND_DIFF)
    ensures FullSnapshot(RECONNECT, GAP_SESSION.snapshot.value) && SessionSucceeds(symbol, GAP_SESSION)
    ensures forall k :: 0 <= k <= |RECONNECT| ==> Uncrossed(BookAt(RECONNECT, k))
    ensures var rows := RunKey(FRESH, ds).rows;
            |rows| == 1 && rows[0].spread < 0.0 && !TrueRow(RECONNECT, rows[0])
  {
    hide SessionSucceeds, SessionProduced;
    ReconnectBooks();
    SingleUpdateFaithful(RECONNECT, 1, FIRST_DIFF);
    SingleUpdateFaithful(RECONNECT, 3, SECOND_DIFF);
    forall k | 0 <= k <= |RECONNECT| ensures Uncrossed(BookAt(RECONNECT, k)) {
      assert k == 0 || k == 1 || k == 2 || k == 3;
    }
    GapSessionRun(symbol);
    assert ds == [ds[0], ds[1]];
    ReconnectRows(ds[0], ds[1]);
  }

  lemma {:induction false} GapSessionRun(symbol: string)
    ensures SessionSucceeds(symbol, GAP_SESSION)
    ensures SessionProduced(symbol, GAP_SESSION)
            == [ToOrderBookEvent(symbol, FIRST_DIFF, 0), ToOrderBookEvent(symbol, SECOND_DIFF, 0)]
  {
    var frames, start := GAP_SESSION.live, StartOf(DepthSnapshot(2, [], []));
    assert frames == [frames[0]] + [frames[1]] + [frames[2]];
    assert frames[..2][..1] == [frames[0]] && frames[..1][..0] == [];
    OneMessage(symbol, FIRST_DIFF, 0);
    assert MessagesOf(symbol, frames[..2]) == [ToOrderBookEvent(symbol, FIRST_DIFF, 0)];
    var messages := [ToOrderBookEvent(symbol, FIRST_DIFF, 0), ToOrderBookEvent(symbol, SECOND_DIFF, 0)];
    assert MessagesOf(symbol, frames) == messages;
    assert Diffs(messages) == [FIRST_DIFF, SECOND_DIFF];
    StaleThenApplied(start, FIRST_DIFF, SECOND_DIFF);
    assert LiveStart(GAP_SESSION) == Some(start);
  }

  lemma {:induction false} StaleThenApplied(s: BookState, e: DepthEvent, f: DepthEvent)
    requires e.last <= s.last < f.last && f.first <= s.last + 1
    ensures Run(s, [e, f]).gapAt.None?
  {
    assert [e, f][..1] == [e] && [e][..0] == [];
    assert Run(s, [e]) == RunResult(s, None);
  }

  /** Two diffs, each newer than what is there and continuing it. */
  lemma {:induction false} TwoApplied(s: BookState, e: DepthEvent, f: DepthEvent)
    requires s.last < e.last < f.last && e.first <= s.last + 1 && f.first <= e.last + 1
    ensures AppliedDiffs(s, [e, f]) == [e, f]
    ensures var after := Run(s, [e]).state; Run(s, [e]) == RunResult(after, None) && Run(after, [f]).gapAt.None?
    ensures Run(s, [e, f]).gapAt.None?
  {
    var after := BookState(e.last, ApplyDiff(s.book, e));
    assert [e, f][..1] == [e] && [e][..0] == [] && [f][..0] == [];
    assert Run(s, [e]) == RunResult(after, None);
    assert AppliedDiffs(s, [e]) == [e];
  }

  /** A bid that the snapshot holds, and an ask that appears after it. */
  const TWO_SIDES: seq<Update> := [Update(BID100, ONE), Update(ASK110, ONE)]
  const ASK110 := Slot(Ask, Decimal("110.0", 110.0))
  const ASK_DIFF := DepthEvent(2, 2, [], [Level(ASK110.price, ONE)], 0)
  const FULL_SNAPSHOT := DepthSnapshot(1, [Level(BID100.price, ONE)], [])
  const SNAPSHOT_SESSION := Feed([], false, Some(FULL_SNAPSHOT), [LiveFrame(Depth(ASK_DIFF), 0)], None, true)

  /** A stored book that is not the full book. Snapshot and diff are right, the session succeeds and loses
      nothing, its local book is the exchange's, and the operator, which never sees the snapshot, lacks
      the bid. */
  lemma {:induction false} StoredBookIsNotFull(symbol: string, ds: seq<Delivery>)
    requires DeliveredInTime(SessionProduced(symbol, SNAPSHOT_SESSION), ds)
    ensures FullSnapshot(TWO_SIDES, FULL_SNAPSHOT) && Faithful(TWO_SIDES, ASK_DIFF)
    ensures SessionSucceeds(symbol, SNAPSHOT_SESSION)
    ensures var s := RunKey(FRESH, ds).state;
            s.last == Some(2) && s.BookOrEmpty().ToBook() != BookAt(TWO_SIDES, 2)
            && Run(StartOf(FULL_SNAPSHOT), SessionDiffs(symbol, SNAPSHOT_SESSION)).state.book == BookAt(TWO_SIDES, 2)
  {
    OneDiffSession(symbol, SNAPSHOT_SESSION, FULL_SNAPSHOT, ASK_DIFF, 0);
    TwoSidesBooks();
    SingleUpdateFaithful(TWO_SIDES, 2, ASK_DIFF);
    OneAskStored(ds[0]);
    assert ds == [ds[0]];
    assert BID100.price in BookAt(TWO_SIDES, 2).bids;
    assert SessionDiffs(symbol, SNAPSHOT_SESSION) == [ASK_DIFF] by {
      OneMessage(symbol, ASK_DIFF, 0);
    }
    hide RunKey, SessionDiffs;
    OneApplied(StartOf(FULL_SNAPSHOT), ASK_DIFF);
  }

  lemma {:induction false} OneAskStored(d: Delivery)
    requires d.msg.diff == ASK_DIFF && !IsLate(d)
    ensures RunKey(FRESH, [d]).state == KeyState(Some(2), Some(DictBook([], [Level(ASK110.price, ONE)])))
  {
    assert [d][..0] == [];
    OneLevelDict(ASK110.price);
  }

  lemma {:induction false} OneApplied(s: BookState, e: DepthEvent)
    requires s.last < e.last && e.first <= s.last + 1
    ensures Run(s, [e]).state.book == ApplyDiff(s.book, e)
  {
    assert [e][..0] == [];
  }

  lemma {:induction false} TwoSidesBooks()
    ensures BookAt(TWO_SIDES, 1) == Book(map[BID100.price := ONE], map[])
    ensures BookAt(TWO_SIDES, 2) == Book(map[BID100.price := ONE], map[ASK110.price := ONE])
    ensures SnapshotBook(FULL_SNAPSHOT) == BookAt(TWO_SIDES, 1)
    ensures ApplyDiff(BookAt(TWO_SIDES, 1), ASK_DIFF) == BookAt(TWO_SIDES, 2)
  {
    assert ASK_DIFF.asks[..0] == [] && ASK_DIFF.bids == [];
    assert ApplyLevels(map[], ASK_DIFF.asks) == map[ASK110.price := ONE];
    assert ApplyDiff(BookAt(TWO_SIDES, 1), ASK_DIFF).asks == BookAt(TWO_SIDES, 2).asks;
  }

  /** The bid that the snapshot holds, an ask, and a lower bid. */
  const LOWER_BID: seq<Update> := TWO_SIDES + [Update(BID90, ONE)]
  const BID90 := Slot(Bid, Decimal("90.0", 90.0))
  const BID_DIFF := DepthEvent(3, 3, [Level(BID90.price, ONE)], [], 0)
  const LOWER_BID_SESSION :=
    Feed([], false, Some(FULL_SNAPSHOT), [LiveFrame(Depth(ASK_DIFF), 0), LiveFrame(Depth(BID_DIFF), 0)], None, true)

  /** A true row whose bid is not the best. The session loses nothing, but the better bid came with the
      snapshot. */
  lemma {:induction false} TrueRowIsNotBest(symbol: string, ds: seq<Delivery>)
    requires DeliveredInTime(SessionProduced(symbol, LOWER_BID_SESSION), ds)
    ensures FullSnapshot(LOWER_BID, FULL_SNAPSHOT)
    ensures Faithful(LOWER_BID, ASK_DIFF) && Faithful(LOWER_BID, BID_DIFF)
    ensures SessionSucceeds(symbol, LOWER_BID_SESSION)
    ensures var rows := RunKey(FRESH, ds).rows;
            |rows| == 1 && TrueRow(LOWER_BID, rows[0]) && !BestRow(LOWER_BID, rows[0])
  {
    hide SessionSucceeds, SessionProduced, RunKey;
    LowerBidBooks();
    SingleUpdateFaithful(LOWER_BID, 2, ASK_DIFF);
    SingleUpdateFaithful(LOWER_BID, 3, BID_DIFF);
    LowerBidSession(symbol);
    assert ds == [ds[0], ds[1]];
    LowerBidRows(ds[0], ds[1]);
    var row := RunKey(FRESH, ds).rows[0];
    var held := BookAt(LOWER_BID, 3);
    assert HasQuote(held.bids, 90.0, 1.0) by {
      assert BID90.price in held.bids;
    }
    assert HasQuote(held.asks, 110.0, 1.0) by {
      assert ASK110.price in held.asks;
    }
    QuotedRowIsTrue(LOWER_BID, DictBook([Level(BID90.price, ONE)], [Level(ASK110.price, ONE)]), ds[1], row);
    BeatenIsNotBest(LOWER_BID, row, BID100);
  }

  lemma {:induction false} LowerBidBooks()
    ensures BookAt(LOWER_BID, 1) == SnapshotBook(FULL_SNAPSHOT)
    ensures BookAt(LOWER_BID, 2) == Book(map[BID100.price := ONE], map[ASK110.price := ONE])
    ensures BookAt(LOWER_BID, 3) == Book(map[BID100.price := ONE, BID90.price := ONE], map[ASK110.price := ONE])
  {
    TwoSidesBooks();
    assert LOWER_BID[..2] == TWO_SIDES[..2] && LOWER_BID[..1] == TWO_SIDES[..1];
    SamePrefix(LOWER_BID, TWO_SIDES, 1);
    SamePrefix(LOWER_BID, TWO_SIDES, 2);
  }

  lemma {:induction false} LowerBidSession(symbol: string)
    ensures SessionSucceeds(symbol, LOWER_BID_SESSION)
    ensures SessionProduced(symbol, LOWER_BID_SESSION)
            == [ToOrderBookEvent(symbol, ASK_DIFF, 0), ToOrderBookEvent(symbol, BID_DIFF, 0)]
  {
    var frames, start := LOWER_BID_SESSION.live, StartOf(FULL_SNAPSHOT);
    OneMessage(symbol, ASK_DIFF, 0);
    assert frames[..1] == [frames[0]];
    var messages := [ToOrderBookEvent(symbol, ASK_DIFF, 0), ToOrderBookEvent(symbol, BID_DIFF, 0)];
    assert MessagesOf(symbol, frames) == messages;
    assert Diffs(messages) == [ASK_DIFF, BID_DIFF];
    TwoApplied(start, ASK_DIFF, BID_DIFF);
    assert LiveStart(LOWER_BID_SESSION) == Some(start);
  }

  lemma {:induction false} LowerBidRows(d1: Delivery, d2: Delivery)
    requires d1.msg.diff == ASK_DIFF && d2.msg.diff == BID_DIFF && !IsLate(d1) && !IsLate(d2)
    ensures RunKey(FRESH, [d1, d2]).rows
            == RowsOf(DictBook([Level(BID90.price, ONE)], [Level(ASK110.price, ONE)]), d2)
  {
    OneAskStored(d1);
    OneLevelDict(BID90.price);
    assert [d1, d2][..1] == [d1] && [d1][..0] == [];
    assert RunKey(FRESH, [d1]).rows == [];
  }

  // ---- A late event ----

  /** A late diff whose loss makes the stored book wrong: it deletes a bid that the book keeps. */
  lemma {:induction false} LateDropCanHurt(d1: Delivery, d2: Delivery)
    requires d1.msg.diff == FIRST_DIFF && !IsLate(d1)
    requires d2.msg.diff == DELETE_DIFF && IsLate(d2)
    ensures Faithful(RECONNECT, FIRST_DIFF) && Faithful(RECONNECT, DELETE_DIFF)
    ensures var s := RunKey(FRESH, [d1, d2]).state;
            s.last == Some(2) && s.BookOrEmpty().ToBook().At(BID100) == Some(ONE)
            && BookAt(RECONNECT, 2).At(BID100) == None
  {
    ReconnectBooks();
    SingleUpdateFaithful(RECONNECT, 1, FIRST_DIFF);
    SingleUpdateFaithful(RECONNECT, 2, DELETE_DIFF);
    OneLevelDict(BID100.price);
    assert [d1, d2][..1] == [d1] && [d1][..0] == [];
    assert RunKey(FRESH, [d1]).state == KeyState(Some(1), Some(DictBook([Level(BID100.price, ONE)], [])));
  }

  // ---- Replay by time ----

  /** Timestamps that do not follow the offsets, and the window from 10 to 20. In the first log the record
      in the window comes behind one past it and is not replayed; in the second one a record from before the
      window lies between two of it and is replayed. */
  lemma {:induction false} OutOfOrderTimes(partition: int, value: OrderBookEvent)
    ensures var missed := [KafkaRecord(0, 10, value), KafkaRecord(1, 30, value), KafkaRecord(2, 15, value)];
            KafkaLog(missed) && InTime(missed[2], 10, 20)
            && TimeRange(partition, missed, 10, 20) == Some(OffsetRange(partition, 0, 1))
            && !InRange(OffsetRange(partition, 0, 1), missed[2])
    ensures var extra := [KafkaRecord(0, 10, value), KafkaRecord(1, 5, value), KafkaRecord(2, 15, value)];
            KafkaLog(extra) && !InTime(extra[1], 10, 20)
            && TimeRange(partition, extra, 10, 20) == Some(OffsetRange(partition, 0, MAX_OFFSET))
            && InRange(OffsetRange(partition, 0, MAX_OFFSET), extra[1])
  {
    var missed := [KafkaRecord(0, 10, value), KafkaRecord(1, 30, value), KafkaRecord(2, 15, value)];
    var extra := [KafkaRecord(0, 10, value), KafkaRecord(1, 5, value), KafkaRecord(2, 15, value)];
    assert FirstAt(missed, 10) == 0 && FirstAt(missed, 20) == 1;
    assert FirstAt(extra, 10) == 0 && FirstAt(extra, 20) == 3;
  }
}
