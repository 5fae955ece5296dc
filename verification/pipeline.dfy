/** The path from the WebSocket session through Kafka to the Flink operator: how the two books
    relate to each other and to the exchange. */
module Pipeline {
  import opened Wrappers
  import opened Books
  import opened Exchange
  import opened OrderBooks
  import opened Client
  import opened Logic
  import opened Normalize

  // ---- The operator's book and the exchange ----

  /** The dict book holds exactly the exchange's quantities after k updates on the given slots, and
      nothing anywhere else. */
  ghost predicate SubBook(ex: seq<Update>, k: int, slots: iset<Slot>, book: DictBook) {
    && 0 <= k <= |ex|
    && book.Valid()
    && forall slot :: book.ToBook().At(slot) == if slot in slots then BookAt(ex, k).At(slot) else None
  }

  ghost function SlotsOf(e: DepthEvent): iset<Slot> {
    iset slot | Lists(e, slot)
  }

  lemma {:induction false} NextBookRefines(book: DictBook, diff: DepthEvent)
    requires book.Valid()
    ensures NextBook(book, diff).Valid()
    ensures NextBook(book, diff).ToBook() == ApplyDiff(book.ToBook(), diff)
  {
    ApplyDictRefines(book.bids, diff.bids);
    ApplyDictRefines(book.asks, diff.asks);
  }

  /** The exchange holds at both ids the same quantity on every one of these slots. */
  ghost predicate SameOn(ex: seq<Update>, k: nat, u: nat, slots: iset<Slot>)
    requires k <= |ex| && u <= |ex|
  {
    forall slot :: slot in slots ==> BookAt(ex, k).At(slot) == BookAt(ex, u).At(slot)
  }

  /** The operator does not check for gaps: after an accepted diff its book is right at the diff's last
      id exactly when the exchange holds the same on the known slots the diff does not list. */
  lemma {:induction false} AcceptedDiff(ex: seq<Update>, k: int, slots: iset<Slot>, book: DictBook, e: DepthEvent)
    requires SubBook(ex, k, slots, book) && Faithful(ex, e)
    ensures SubBook(ex, e.last, slots + SlotsOf(e), NextBook(book, e))
            <==> SameOn(ex, k, e.last, slots - SlotsOf(e))
  {
    var next := NextBook(book, e);
    NextBookRefines(book, e);
    forall slot
      ensures slot in SlotsOf(e) ==> next.ToBook().At(slot) == BookAt(ex, e.last).At(slot)
      ensures slot !in SlotsOf(e) ==>
                next.ToBook().At(slot) == if slot in slots then BookAt(ex, k).At(slot) else None
    {
      ApplyDiffAt(book.ToBook(), book.ToBook(), e, slot);
      if Lists(e, slot) {
        FaithfulListed(ex, book.ToBook(), e, slot);
      }
    }
  }

  /** A diff that starts at or before the next id leaves nothing unlisted that changed. */
  lemma {:induction false} ContiguousKeepsSame(ex: seq<Update>, k: nat, e: DepthEvent, slots: iset<Slot>)
    requires Faithful(ex, e) && e.first <= k + 1 && k <= e.last
    ensures SameOn(ex, k, e.last, slots - SlotsOf(e))
  {
    forall slot | slot in slots - SlotsOf(e) ensures BookAt(ex, k).At(slot) == BookAt(ex, e.last).At(slot) {
      assert !Touched(ex, e.first, e.last, slot);
      UntouchedKeeps(ex, k, e.last, slot);
    }
  }

  function DiffsOf(ds: seq<Delivery>): (es: seq<DepthEvent>)
    ensures |es| == |ds|
    ensures forall i :: 0 <= i < |es| ==> es[i] == ds[i].msg.diff
  {
    Diffs(seq(|ds|, i requires 0 <= i < |ds| => ds[i].msg))
  }

  /** Each delivery is newer than the one before and starts at most one past its last id. */
  ghost predicate Contiguous(ds: seq<Delivery>) {
    forall i :: 0 < i < |ds| ==>
      ds[i - 1].Id() < ds[i].Id() && ds[i].msg.diff.first <= ds[i - 1].Id() + 1
  }

  ghost predicate FaithfulAndInTime(ex: seq<Update>, ds: seq<Delivery>) {
    forall i :: 0 <= i < |ds| ==> Faithful(ex, ds[i].msg.diff) && !IsLate(ds[i])
  }

  ghost predicate Uncrossed(book: Book) {
    forall b, a :: b in book.bids && a in book.asks ==> b.value < a.value
  }

  /** A row that tells the truth about the exchange at its update id: its quotes are levels of the
      exchange's book, its mid price lies half the spread from each, and unless the exchange's book is
      crossed itself the spread is positive, so that bid < mid < ask. */
  ghost predicate TrueRow(ex: seq<Update>, row: Row) {
    && 0 <= row.lastUpdateId <= |ex|
    && HasQuote(BookAt(ex, row.lastUpdateId).bids, row.bestBidPrice, row.bestBidQty)
    && HasQuote(BookAt(ex, row.lastUpdateId).asks, row.bestAskPrice, row.bestAskQty)
    && row.midPrice - row.bestBidPrice == row.bestAskPrice - row.midPrice == row.spread / 2.0
    && (Uncrossed(BookAt(ex, row.lastUpdateId)) ==>
          row.spread > 0.0 && row.bestBidPrice < row.midPrice < row.bestAskPrice)
  }

  /** The price is better than the row's quote on its side. */
  predicate Beats(slot: Slot, row: Row) {
    if slot.side == Bid then slot.price.value > row.bestBidPrice else slot.price.value < row.bestAskPrice
  }

  /** Of these slots, none at which the exchange holds a level at the row's id beats the row's quotes. */
  ghost predicate UnbeatenOn(ex: seq<Update>, slots: iset<Slot>, row: Row) {
    && 0 <= row.lastUpdateId <= |ex|
    && forall slot :: slot in slots && BookAt(ex, row.lastUpdateId).At(slot).Some? ==> !Beats(slot, row)
  }

  /** What best bid and best ask promise: a true row whose quotes no level of the exchange beats. */
  ghost predicate BestRow(ex: seq<Update>, row: Row) {
    && TrueRow(ex, row)
    && forall slot :: BookAt(ex, row.lastUpdateId).At(slot).Some? ==> !Beats(slot, row)
  }

  ghost predicate ListedBefore(es: seq<DepthEvent>, id: int, slot: Slot) {
    exists i :: 0 <= i < |es| && es[i].last <= id && Lists(es[i], slot)
  }

  /** The slots listed by diffs that end by this id. */
  ghost function ListedUpTo(es: seq<DepthEvent>, id: int): iset<Slot> {
    iset slot | ListedBefore(es, id, slot)
  }

  /** A true row whose quotes are the best among the slots the diffs had listed by then. */
  ghost predicate BestListedRow(ex: seq<Update>, es: seq<DepthEvent>, row: Row) {
    TrueRow(ex, row) && UnbeatenOn(ex, ListedUpTo(es, row.lastUpdateId), row)
  }

  ghost predicate HasQuote(m: Levels, price: real, qty: real) {
    exists p :: p in m && p.value == price && m[p].value == qty
  }

  lemma {:induction false} BestIsListed(side: Side, d: Dict)
    requires d != [] && Distinct(d)
    ensures var best := BestOf(side, d); Lookup(ToMap(d), best.price) == Some(best.qty)
  {
    var best := BestOf(side, d);
    assert multiset(d)[best] > 0;
    DictMultiset(d, best);
  }

  /** The slot of the best level of a side. */
  function BestSlot(side: Side, d: Dict): Slot
    requires d != []
  {
    Slot(side, BestOf(side, d).price)
  }

  /** The quantity is there and is this number. */
  predicate Amounts(held: Option<Decimal>, qty: real) {
    held.Some? && held.value.value == qty
  }

  /** The exchange holds both quotes of the book after k updates. */
  ghost predicate QuotesHeld(ex: seq<Update>, k: int, book: DictBook) {
    && 0 <= k <= |ex| && book.bids != [] && book.asks != []
    && Amounts(BookAt(ex, k).At(BestSlot(Bid, book.bids)), BestOf(Bid, book.bids).qty.value)
    && Amounts(BookAt(ex, k).At(BestSlot(Ask, book.asks)), BestOf(Ask, book.asks).qty.value)
  }

  lemma {:induction false} QuotedRowIsTrue(ex: seq<Update>, book: DictBook, d: Delivery, row: Row)
    requires row in RowsOf(book, d) && 0 <= d.Id() <= |ex|
    requires HasQuote(BookAt(ex, d.Id()).bids, row.bestBidPrice, row.bestBidQty)
    requires HasQuote(BookAt(ex, d.Id()).asks, row.bestAskPrice, row.bestAskQty)
    ensures TrueRow(ex, row)
  {
  }

  lemma {:induction false} HeldQuotesAreTrue(ex: seq<Update>, book: DictBook, d: Delivery)
    requires QuotesHeld(ex, d.Id(), book)
    ensures forall row :: row in RowsOf(book, d) ==> TrueRow(ex, row)
  {
    var held := BookAt(ex, d.Id());
    var bid, ask := BestOf(Bid, book.bids), BestOf(Ask, book.asks);
    assert bid.price in held.bids && ask.price in held.asks;
    assert HasQuote(held.bids, bid.price.value, bid.qty.value);
    assert HasQuote(held.asks, ask.price.value, ask.qty.value);
  }

  lemma {:induction false} RowsAreTrue(ex: seq<Update>, slots: iset<Slot>, book: DictBook, d: Delivery)
    requires SubBook(ex, d.Id(), slots, book)
    ensures forall row :: row in RowsOf(book, d) ==> TrueRow(ex, row) && UnbeatenOn(ex, slots, row)
  {
    if book.bids != [] && book.asks != [] {
      BestIsListed(Bid, book.bids);
      BestIsListed(Ask, book.asks);
      assert book.ToBook().At(BestSlot(Bid, book.bids)) == Some(BestOf(Bid, book.bids).qty);
      assert book.ToBook().At(BestSlot(Ask, book.asks)) == Some(BestOf(Ask, book.asks).qty);
      HeldQuotesAreTrue(ex, book, d);
      hide TrueRow, BestOf, ToMap, Imbalance;
      forall row | row in RowsOf(book, d) ensures UnbeatenOn(ex, slots, row) {
        forall slot | slot in slots && BookAt(ex, d.Id()).At(slot).Some? ensures !Beats(slot, row) {
          assert book.ToBook().At(slot).Some?;
          BestIsUnbeaten(book, slot);
        }
      }
    }
  }

  lemma {:induction false} BestIsUnbeaten(book: DictBook, slot: Slot)
    requires book.bids != [] && book.asks != [] && book.ToBook().At(slot).Some?
    ensures slot.side == Bid ==> slot.price.value <= BestOf(Bid, book.bids).price.value
    ensures slot.side == Ask ==> slot.price.value >= BestOf(Ask, book.asks).price.value
  {
    ToMapHas(book.SideOf(slot.side), slot.price);
  }

  lemma {:induction false} SlotsAppend(ds: seq<Delivery>, d: Delivery)
    ensures ListedSlots(DiffsOf(ds + [d])) == ListedSlots(DiffsOf(ds)) + SlotsOf(d.msg.diff)
  {
    assert DiffsOf(ds + [d]) == DiffsOf(ds) + [d.msg.diff];
    ListedSlotsAppend(DiffsOf(ds), d.msg.diff);
  }

  /** One accepted delivery that starts at most one past the stored id. */
  lemma {:induction false} SubBookStep(ex: seq<Update>, known: iset<Slot>, s: KeyState, d: Delivery)
    requires Faithful(ex, d.msg.diff) && !IsLate(d)
    requires (s == FRESH && known == iset{})
             || (s.last.Some? && s.last.value < d.Id() && d.msg.diff.first <= s.last.value + 1
                 && SubBook(ex, s.last.value, known, s.BookOrEmpty()))
    ensures var next := StepKey(s, d).state;
            next.last == Some(d.Id()) && SubBook(ex, d.Id(), known + SlotsOf(d.msg.diff), next.BookOrEmpty())
            && StepKey(s, d).rows == RowsOf(next.BookOrEmpty(), d)
  {
    if s.last.Some? {
      ContiguousKeepsSame(ex, s.last.value, d.msg.diff, known);
      AcceptedDiff(ex, s.last.value, known, s.BookOrEmpty(), d.msg.diff);
    } else {
      assert SubBook(ex, 0, known, s.BookOrEmpty());
      AcceptedDiff(ex, 0, known, s.BookOrEmpty(), d.msg.diff);
    }
  }

  lemma {:induction false} SubBookOfRecords(ex: seq<Update>, ds: seq<Delivery>)
    requires Contiguous(ds) && FaithfulAndInTime(ex, ds)
    ensures var s := RunKey(FRESH, ds).state;
            if ds == [] then s == FRESH && ListedSlots(DiffsOf(ds)) == iset{}
            else s.last == Some(ds[|ds| - 1].Id())
                 && SubBook(ex, ds[|ds| - 1].Id(), ListedSlots(DiffsOf(ds)), s.BookOrEmpty())
  {
    if ds == [] {
      assert DiffsOf(ds) == [];
    } else {
      var front, d := ds[..|ds| - 1], ds[|ds| - 1];
      SubBookOfRecords(ex, front);
      LastRecordFits(ex, ds);
      hide StepKey, Faithful, SubBook, ListedSlots, SlotsOf, IsLate, RunKey, DiffsOf;
      SubBookLast(ex, front, d);
      assert ds == front + [d];
    }
  }

  /** What the hypotheses on a list say about its last delivery and the ones before. */
  lemma {:induction false} LastRecordFits(ex: seq<Update>, ds: seq<Delivery>)
    requires Contiguous(ds) && FaithfulAndInTime(ex, ds) && ds != []
    ensures var front, d := ds[..|ds| - 1], ds[|ds| - 1];
            Contiguous(front) && FaithfulAndInTime(ex, front) && Faithful(ex, d.msg.diff) && !IsLate(d)
            && (front != [] ==> front[|front| - 1].Id() < d.Id()
                                && d.msg.diff.first <= front[|front| - 1].Id() + 1)
  {
    hide Faithful, IsLate;
  }

  lemma {:induction false} SubBookLast(ex: seq<Update>, front: seq<Delivery>, d: Delivery)
    requires Faithful(ex, d.msg.diff) && !IsLate(d)
    requires var s := RunKey(FRESH, front).state;
             if front == [] then s == FRESH && ListedSlots(DiffsOf(front)) == iset{}
             else s.last == Some(front[|front| - 1].Id())
                  && SubBook(ex, s.last.value, ListedSlots(DiffsOf(front)), s.BookOrEmpty())
                  && s.last.value < d.Id() && d.msg.diff.first <= s.last.value + 1
    ensures var r, before := RunKey(FRESH, front + [d]), RunKey(FRESH, front);
            r.state.last == Some(d.Id())
            && SubBook(ex, d.Id(), ListedSlots(DiffsOf(front + [d])), r.state.BookOrEmpty())
            && r.rows == before.rows + RowsOf(r.state.BookOrEmpty(), d)
  {
    hide StepKey, Faithful, SubBook, ListedSlots, SlotsOf, IsLate, RunKey, DiffsOf;
    SlotsAppend(front, d);
    RunKeyStep(FRESH, front, d);
    SubBookStep(ex, ListedSlots(DiffsOf(front)), RunKey(FRESH, front).state, d);
  }

  /** The operator's book is an exact part of the exchange's book. For a key started empty, with
      faithful diffs of which every accepted one is in time and starts at most one past the previous
      accepted id, the stored book is the exchange's book at the stored id, restricted to the slots
      the accepted diffs list. Duplicates and out-of-order diffs may be interspersed freely. */
  lemma {:induction false} FlinkBookIsExactPart(ex: seq<Update>, ds: seq<Delivery>)
    requires Contiguous(Records(None, ds)) && FaithfulAndInTime(ex, Records(None, ds))
    ensures var s, rs := RunKey(FRESH, ds).state, Records(None, ds);
            if ds == [] then s == FRESH
            else s.last.Some? && SubBook(ex, s.last.value, ListedSlots(DiffsOf(rs)), s.BookOrEmpty())
  {
    DedupIsErasure(FRESH, ds);
    SubBookOfRecords(ex, Records(None, ds));
    if ds != [] {
      StoredIdIsHighest(FRESH, ds);
      assert IsDuplicate(RunKey(FRESH, ds).state.last, ds[0].Id());
    }
  }

  lemma {:induction false} RowsOfRecordsAreTrue(ex: seq<Update>, ds: seq<Delivery>)
    requires Contiguous(ds) && FaithfulAndInTime(ex, ds)
    ensures forall row :: row in RunKey(FRESH, ds).rows ==> BestListedRow(ex, DiffsOf(ds), row)
  {
    if ds != [] {
      var front, d := ds[..|ds| - 1], ds[|ds| - 1];
      RowsOfRecordsAreTrue(ex, front);
      SubBookOfRecords(ex, front);
      LastRecordFits(ex, ds);
      RowIdsIncrease(FRESH, front);
      assert RowsAreNew(None, RunKey(FRESH, front));
      ListedByNow(ds);
      hide StepKey, Faithful, SubBook, ListedSlots, ListedUpTo, IsLate, RowsOf, TrueRow, UnbeatenOn, RunKey, DiffsOf;
      SubBookLast(ex, front, d);
      assert ds == front + [d];
      var book := RunKey(FRESH, ds).state.BookOrEmpty();
      RowsAreTrue(ex, ListedSlots(DiffsOf(ds)), book, d);
      forall row | row in RunKey(FRESH, ds).rows ensures BestListedRow(ex, DiffsOf(ds), row) {
        if row in RunKey(FRESH, front).rows {
          assert BestListedRow(ex, DiffsOf(front), row);
        } else {
          RowHasId(book, d, row);
        }
      }
    }
  }

  lemma {:induction false} RowHasId(book: DictBook, d: Delivery, row: Row)
    requires row in RowsOf(book, d)
    ensures row.lastUpdateId == d.Id()
  {
  }

  /** With increasing ids the last delivery adds nothing to what was listed up to an earlier id. */
  lemma {:induction false} ListedByNow(ds: seq<Delivery>)
    requires Contiguous(ds) && ds != []
    ensures var front, d := ds[..|ds| - 1], ds[|ds| - 1];
            ListedUpTo(DiffsOf(ds), d.Id()) == ListedSlots(DiffsOf(ds))
            && (forall id :: id < d.Id() ==> ListedUpTo(DiffsOf(ds), id) == ListedUpTo(DiffsOf(front), id))
  {
    IncreasingIds(ds);
    var es := DiffsOf(ds);
    assert DiffsOf(ds[..|ds| - 1]) == es[..|es| - 1];
    ListedUpToLast(es);
  }

  lemma {:induction false} ListedUpToLast(es: seq<DepthEvent>)
    requires es != [] && forall i :: 0 <= i < |es| ==> es[i].last <= es[|es| - 1].last
    ensures var n := |es| - 1;
            ListedUpTo(es, es[n].last) == ListedSlots(es)
            && forall id :: id < es[n].last ==> ListedUpTo(es, id) == ListedUpTo(es[..n], id)
  {
    hide Lists;
    var n := |es| - 1;
    forall id, slot | id < es[n].last ensures ListedBefore(es, id, slot) <==> ListedBefore(es[..n], id, slot) {
      assert forall i :: 0 <= i < n ==> es[..n][i] == es[i];
    }
    forall slot ensures ListedBefore(es, es[n].last, slot) <==> ListedBy(es, slot) {
    }
  }

  lemma {:induction false} IncreasingIds(ds: seq<Delivery>)
    requires Contiguous(ds) && ds != []
    ensures forall i :: 0 <= i < |ds| ==> ds[i].Id() <= ds[|ds| - 1].Id()
  {
    var n := |ds| - 1;
    if n > 0 {
      IncreasingIds(ds[..n]);
      assert forall i :: 0 <= i < n ==> ds[..n][i] == ds[i];
    }
  }

  /** Under the same conditions every emitted row is true: it quotes levels the exchange holds at that
      id, and when the exchange's book is not crossed, its spread is positive and bid < mid < ask. Its
      quotes are the best among the slots listed so far. */
  lemma {:induction false} EveryRowIsTrue(ex: seq<Update>, ds: seq<Delivery>)
    requires Contiguous(Records(None, ds)) && FaithfulAndInTime(ex, Records(None, ds))
    ensures forall row :: row in RunKey(FRESH, ds).rows ==> BestListedRow(ex, DiffsOf(Records(None, ds)), row)
  {
    DedupIsErasure(FRESH, ds);
    RowsOfRecordsAreTrue(ex, Records(None, ds));
  }

  // ---- Every run, without any assumption on contiguity or lateness ----

  /** The diffs that reach the book: accepted by dedup and not late. */
  ghost function Effective(ds: seq<Delivery>): seq<DepthEvent> {
    if ds == [] then []
    else
      var n := |ds| - 1;
      Effective(ds[..n]) + if IsRecord(None, ds, n) && !IsLate(ds[n]) then [ds[n].msg.diff] else []
  }

  /** The last id of the latest diff that lists a slot. */
  ghost function LatestListing(es: seq<DepthEvent>, slot: Slot): Option<int> {
    if es == [] then None
    else
      var n := |es| - 1;
      if Lists(es[n], slot) then Some(es[n].last) else LatestListing(es[..n], slot)
  }

  ghost predicate AllFaithful(ex: seq<Update>, es: seq<DepthEvent>) {
    forall i :: 0 <= i < |es| ==> Faithful(ex, es[i])
  }

  lemma {:induction false} LatestInRange(ex: seq<Update>, es: seq<DepthEvent>, slot: Slot)
    requires AllFaithful(ex, es)
    ensures LatestListing(es, slot).Some? ==> 0 <= LatestListing(es, slot).value <= |ex|
    ensures LatestListing(es, slot).Some? <==> slot in ListedSlots(es)
  {
    if es != [] {
      var n := |es| - 1;
      LatestInRange(ex, es[..n], slot);
      assert es == es[..n] + [es[n]];
      ListedSlotsAppend(es[..n], es[n]);
    }
  }

  /** What the exchange held at a slot when it was last listed, nothing when it never was. */
  ghost function HeldWhenListed(ex: seq<Update>, es: seq<DepthEvent>, slot: Slot): Option<Decimal>
    requires AllFaithful(ex, es)
  {
    LatestInRange(ex, es, slot);
    match LatestListing(es, slot)
    case None => None
    case Some(u) => BookAt(ex, u).At(slot)
  }

  /** The operator's book after any run on a fresh key, with gaps, reconnects, duplicates, reordering
      and late events: at each slot it holds what the exchange held there at the last id of the latest
      effective diff that listed the slot. */
  lemma {:induction false} FlinkBookOfAnyRun(ex: seq<Update>, ds: seq<Delivery>, slot: Slot)
    requires AllFaithful(ex, Effective(ds))
    ensures var book := RunKey(FRESH, ds).state.BookOrEmpty();
            book.Valid() && book.ToBook().At(slot) == HeldWhenListed(ex, Effective(ds), slot)
  {
    if ds != [] {
      var n := |ds| - 1;
      var es := Effective(ds[..n]);
      var e := ds[n].msg.diff;
      RecordIffAccepted(FRESH, ds);
      if IsRecord(None, ds, n) && !IsLate(ds[n]) {
        assert Effective(ds) == es + [e];
        assert AllFaithful(ex, es) by {
          assert forall i :: 0 <= i < |es| ==> es[i] == Effective(ds)[i];
        }
        FlinkBookOfAnyRun(ex, ds[..n], slot);
        EffectiveStep(ex, RunKey(FRESH, ds[..n]).state.BookOrEmpty(), es, e, slot);
      } else {
        assert Effective(ds) == es;
        FlinkBookOfAnyRun(ex, ds[..n], slot);
      }
    }
  }

  lemma {:induction false} EffectiveStep(ex: seq<Update>, book: DictBook, es: seq<DepthEvent>,
                                         e: DepthEvent, slot: Slot)
    requires AllFaithful(ex, es) && AllFaithful(ex, es + [e])
    requires book.Valid() && book.ToBook().At(slot) == HeldWhenListed(ex, es, slot)
    ensures NextBook(book, e).Valid()
    ensures NextBook(book, e).ToBook().At(slot) == HeldWhenListed(ex, es + [e], slot)
  {
    NextBookRefines(book, e);
    ApplyDiffAt(book.ToBook(), book.ToBook(), e, slot);
    assert (es + [e])[|es|] == e && (es + [e])[..|es|] == es;
    if Lists(e, slot) {
      FaithfulListed(ex, book.ToBook(), e, slot);
    }
  }

  // ---- The local book and the operator's book over one session ----

  /** Everything a client sends comes under one key, its own. */
  lemma {:induction false} ProducedUnderOneKey(symbol: string, feed: Feed)
    ensures forall message :: message in SessionProduced(symbol, feed) ==>
              KafkaKey(message.exchange, message.symbol) == "binance#" + symbol
  {
    if LiveStart(feed).Some? {
      ProducedRecords(symbol, feed.live, LiveStart(feed).value, feed.sendFailsAt);
    }
    assert "binance" + "#" == "binance#";
  }

  /** The deliveries carry these messages, in order, and none arrives late. */
  ghost predicate DeliveredInTime(messages: seq<OrderBookEvent>, ds: seq<Delivery>) {
    |ds| == |messages| && forall i :: 0 <= i < |ds| ==> ds[i].msg == messages[i] && !IsLate(ds[i])
  }

  /** The ids never run ahead of the local book and meet it once a diff was new to it, and then both
      books have the same quantity on every slot such a diff lists. */
  ghost predicate Coupled(local: BookState, applied: seq<DepthEvent>, s: KeyState) {
    && (s.last.Some? ==> s.last.value <= local.last)
    && (applied != [] ==> s.last == Some(local.last))
    && s.BookOrEmpty().Valid()
    && forall slot :: slot in ListedSlots(applied) ==> s.BookOrEmpty().ToBook().At(slot) == local.book.At(slot)
  }

  lemma {:induction false} CoupledStep(local: BookState, applied: seq<DepthEvent>, s: KeyState, d: Delivery)
    requires Coupled(local, applied, s) && !IsLate(d)
    ensures StepOf(local, d.msg.diff).Stale? ==> Coupled(local, applied, StepKey(s, d).state)
    ensures StepOf(local, d.msg.diff).Applied? ==>
              Coupled(StepOf(local, d.msg.diff).next, applied + [d.msg.diff], StepKey(s, d).state)
  {
    var e, book := d.msg.diff, s.BookOrEmpty();
    NextBookRefines(book, e);
    if StepOf(local, e).Stale? {
      if !IsDuplicate(s.last, d.Id()) {
        assert applied == [];
      }
    } else if StepOf(local, e).Applied? {
      ListedSlotsAppend(applied, e);
      forall slot | slot in ListedSlots(applied) || Lists(e, slot)
        ensures NextBook(book, e).ToBook().At(slot) == ApplyDiff(local.book, e).At(slot)
      {
        ApplyDiffAt(book.ToBook(), local.book, e, slot);
        ApplyDiffAt(local.book, local.book, e, slot);
      }
    }
  }

  lemma {:induction false} CoupledRun(start: BookState, messages: seq<OrderBookEvent>, ds: seq<Delivery>)
    requires DeliveredInTime(messages, ds)
    requires Run(start, Diffs(messages)).gapAt.None?
    ensures Coupled(Run(start, Diffs(messages)).state, AppliedDiffs(start, Diffs(messages)), RunKey(FRESH, ds).state)
  {
    var es := Diffs(messages);
    if messages == [] {
      assert AppliedDiffs(start, es) == [];
    } else {
      var n := |messages| - 1;
      assert Diffs(messages[..n]) == es[..n];
      CoupledRun(start, messages[..n], ds[..n]);
      var before := Run(start, es[..n]);
      CoupledStep(before.state, AppliedDiffs(start, es[..n]), RunKey(FRESH, ds[..n]).state, ds[n]);
      assert AppliedDiffs(start, es[..n]) + [] == AppliedDiffs(start, es[..n]);
    }
  }

  /** What is produced is a prefix of the live messages that raises no gap, and unless a send raises the
      live book has taken in nothing else. */
  lemma {:induction false} ProducedRun(start: BookState, messages: seq<OrderBookEvent>, sendFailsAt: Option<nat>)
    ensures var sent := ProducedFrom(start, messages, sendFailsAt);
            sent <= messages && Run(start, Diffs(sent)).gapAt.None?
            && (!SendFails(messages, sendFailsAt) ==>
                  Run(start, Diffs(sent)).state == Run(start, Diffs(messages)).state)
  {
    var reached := Reached(messages, sendFailsAt);
    var sent := ProducedFrom(start, messages, sendFailsAt);
    GapDetectionIsExact(start, Diffs(reached));
    assert sent <= reached && Diffs(sent) == Diffs(reached)[..|sent|];
    RunPrefix(start, Diffs(reached), |sent|);
  }

  lemma {:induction false} RunPrefix(s: BookState, events: seq<DepthEvent>, k: nat)
    requires k <= |events|
    requires Run(s, events).gapAt.Some? ==> k <= Run(s, events).gapAt.value
    ensures Run(s, events[..k]).gapAt.None?
    ensures (Run(s, events).gapAt == Some(k) || k == |events|) ==> Run(s, events[..k]).state == Run(s, events).state
  {
    var n := |events| - 1;
    if k == |events| {
      assert events[..k] == events;
      GapDetectionIsExact(s, events);
    } else {
      GapDetectionIsExact(s, events[..n]);
      assert events[..n][..k] == events[..k];
      RunPrefix(s, events[..n], k);
    }
  }

  /** Coupling over one session, however it ends. Starting the operator on a fresh key and delivering
      what a session produced, without late drops: the operator's id never exceeds that of the local
      book, equals it once a live diff was new to the local book, and both books then agree on every
      slot listed by such a diff, although stale diffs are produced too. The local book is meant after
      the last diff that was sent, which is its final state unless a send raised. */
  lemma {:induction false} SessionCoupling(symbol: string, feed: Feed, ds: seq<Delivery>)
    requires LiveStart(feed).Some?
    requires DeliveredInTime(SessionProduced(symbol, feed), ds)
    ensures var live := Diffs(SessionProduced(symbol, feed));
            var local := Run(StartOf(feed.snapshot.value), BufferOf(feed.buffered) + live).state;
            Coupled(local, AppliedDiffs(LiveStart(feed).value, live), RunKey(FRESH, ds).state)
            && (!SendFails(MessagesOf(symbol, feed.live), feed.sendFailsAt) ==>
                  local == Run(StartOf(feed.snapshot.value), SessionDiffs(symbol, feed)).state)
  {
    var start, messages := LiveStart(feed).value, MessagesOf(symbol, feed.live);
    var live := Diffs(SessionProduced(symbol, feed));
    ProducedRun(start, messages, feed.sendFailsAt);
    CoupledRun(start, SessionProduced(symbol, feed), ds);
    SnapshotTimingDoesNotMatter(StartOf(feed.snapshot.value), BufferOf(feed.buffered), live);
    SnapshotTimingDoesNotMatter(StartOf(feed.snapshot.value), BufferOf(feed.buffered), Diffs(messages));
  }

  /** Up to this id, and for the first delivery behind it, no id is left out between accepted deliveries. */
  ghost predicate ContiguousUpTo(rs: seq<Delivery>, id: int) {
    forall i :: 0 < i < |rs| && rs[i - 1].Id() <= id ==> rs[i].msg.diff.first <= rs[i - 1].Id() + 1
  }

  /** What a session's gap check secures for the operator: its ids increase, and behind the id at which the
      live phase began nothing is left out. */
  ghost predicate SecuredBehind(start: int, local: int, rs: seq<Delivery>, s: KeyState) {
    && (forall i :: 0 < i < |rs| ==> rs[i - 1].Id() < rs[i].Id())
    && (forall i :: 0 < i < |rs| && rs[i - 1].Id() > start ==> rs[i].msg.diff.first <= rs[i - 1].Id() + 1)
    && s.last == (if rs == [] then None else Some(rs[|rs| - 1].Id()))
    && start <= local
    && (s.last.Some? ==> s.last.value <= local)
    && (local > start ==> s.last == Some(local))
  }

  lemma {:induction false} SecuredRun(start: BookState, messages: seq<OrderBookEvent>, ds: seq<Delivery>)
    requires DeliveredInTime(messages, ds)
    requires Run(start, Diffs(messages)).gapAt.None?
    ensures SecuredBehind(start.last, Run(start, Diffs(messages)).state.last,
                          Records(None, ds), RunKey(FRESH, ds).state)
  {
    if messages != [] {
      var n := |messages| - 1;
      var es := Diffs(messages);
      assert Diffs(messages[..n]) == es[..n];
      SecuredRun(start, messages[..n], ds[..n]);
      RecordIffAccepted(FRESH, ds);
      assert es[n] == ds[n].msg.diff;
      SecuredStep(start.last, Run(start, es[..n]).state, Records(None, ds[..n]), RunKey(FRESH, ds[..n]).state, ds[n]);
      assert Records(None, ds[..n]) + [] == Records(None, ds[..n]);
    }
  }

  lemma {:induction false} SecuredStep(start: int, local: BookState, rs: seq<Delivery>, s: KeyState, d: Delivery)
    requires SecuredBehind(start, local.last, rs, s) && !StepOf(local, d.msg.diff).Gap?
    ensures var step := StepOf(local, d.msg.diff);
            SecuredBehind(start, if step.Applied? then step.next.last else local.last,
                          if IsDuplicate(s.last, d.Id()) then rs else rs + [d], StepKey(s, d).state)
  {
    hide NextBook, RowsOf, ApplyDiff, IsLate;
    if !IsDuplicate(s.last, d.Id()) && rs != [] {
      assert (rs + [d])[|rs|] == d && (rs + [d])[|rs| - 1] == rs[|rs| - 1];
    }
  }

  /** The gaps a session can leave in the operator's stream, exactly. Stale diffs are produced although the
      local book drops them, and their gaps go unnoticed. Behind the first new diff the client's gap check
      leaves none, so the accepted diffs are contiguous if and only if they are so up to the id at which
      the live phase began. */
  lemma {:induction false} SessionContiguousIff(symbol: string, feed: Feed, ds: seq<Delivery>)
    requires LiveStart(feed).Some?
    requires DeliveredInTime(SessionProduced(symbol, feed), ds)
    ensures var rs := Records(None, ds);
            Contiguous(rs) <==> ContiguousUpTo(rs, LiveStart(feed).value.last)
  {
    var start, sent := LiveStart(feed).value, SessionProduced(symbol, feed);
    ProducedRun(start, MessagesOf(symbol, feed.live), feed.sendFailsAt);
    SecuredRun(start, sent, ds);
  }

  lemma {:induction false} RecordsAreDelivered(ds: seq<Delivery>)
    ensures forall d :: d in Records(None, ds) ==> d in ds
  {
    if ds != [] {
      RecordsAreDelivered(ds[..|ds| - 1]);
    }
  }

  /** End to end over one session, however it ends and whatever its stream loses. When the diffs it produced
      are faithful and delivered in time, and the stale ones among them leave out no id, the operator
      started on a fresh key holds the exact part of the exchange's book that the accepted diffs list, and
      every row it emits is true and the best of what was listed. */
  lemma {:induction false} SessionEndToEnd(ex: seq<Update>, symbol: string, feed: Feed, ds: seq<Delivery>)
    requires forall e :: e in Diffs(SessionProduced(symbol, feed)) ==> Faithful(ex, e)
    requires DeliveredInTime(SessionProduced(symbol, feed), ds)
    requires LiveStart(feed).Some? ==> ContiguousUpTo(Records(None, ds), LiveStart(feed).value.last)
    ensures var s, rs := RunKey(FRESH, ds).state, Records(None, ds);
            Contiguous(rs)
            && (forall row :: row in RunKey(FRESH, ds).rows ==> BestListedRow(ex, DiffsOf(rs), row))
            && (ds != [] ==> s.last.Some? && SubBook(ex, s.last.value, ListedSlots(DiffsOf(rs)), s.BookOrEmpty()))
  {
    hide RunKey, Faithful, SubBook, BestListedRow;
    var rs := Records(None, ds);
    if LiveStart(feed).Some? {
      SessionContiguousIff(symbol, feed, ds);
    }
    RecordsAreDelivered(ds);
    ProducedInTime(ex, SessionProduced(symbol, feed), ds, rs);
    EveryRowIsTrue(ex, ds);
    FlinkBookIsExactPart(ex, ds);
  }

  lemma {:induction false} ProducedInTime(ex: seq<Update>, sent: seq<OrderBookEvent>,
                                          ds: seq<Delivery>, rs: seq<Delivery>)
    requires forall e :: e in Diffs(sent) ==> Faithful(ex, e)
    requires DeliveredInTime(sent, ds) && forall d :: d in rs ==> d in ds
    ensures FaithfulAndInTime(ex, rs)
  {
    hide Faithful, IsLate;
    forall i | 0 <= i < |rs| ensures Faithful(ex, rs[i].msg.diff) && !IsLate(rs[i]) {
      assert rs[i] in ds;
      var j :| 0 <= j < |ds| && ds[j] == rs[i];
      assert Diffs(sent)[j] == rs[i].msg.diff;
    }
  }

  /** A stream that loses nothing leaves no gap. */
  lemma {:induction false} LosslessIsContiguous(symbol: string, feed: Feed, ds: seq<Delivery>)
    requires Lossless(Diffs(MessagesOf(symbol, feed.live)))
    requires DeliveredInTime(SessionProduced(symbol, feed), ds)
    ensures Records(None, ds) == ds && Contiguous(ds)
  {
    var messages, sent := MessagesOf(symbol, feed.live), SessionProduced(symbol, feed);
    if LiveStart(feed).Some? {
      ProducedRun(LiveStart(feed).value, messages, feed.sendFailsAt);
    }
    assert sent <= messages;
    forall i | 0 <= i < |ds| ensures ds[i].msg.diff == Diffs(messages)[i] {
    }
    LosslessRecords(ds);
  }

  lemma {:induction false} LosslessRecords(ds: seq<Delivery>)
    requires Lossless(DiffsOf(ds))
    ensures Records(None, ds) == ds && Contiguous(ds)
  {
    if ds != [] {
      var n := |ds| - 1;
      LosslessStep(ds);
      LosslessRecords(ds[..n]);
      assert ds == ds[..n] + [ds[n]];
    }
  }

  lemma {:induction false} LosslessStep(ds: seq<Delivery>)
    requires Lossless(DiffsOf(ds)) && ds != []
    ensures Lossless(DiffsOf(ds[..|ds| - 1])) && Contiguous(ds) && IsRecord(None, ds, |ds| - 1)
  {
    var n := |ds| - 1;
    var es := DiffsOf(ds);
    hide DiffsOf;
    assert DiffsOf(ds[..n]) == es[..n];
    assert forall i :: 0 < i < |ds| ==> es[i].first == es[i - 1].last + 1;
    assert Contiguous(ds);
    if n > 0 {
      IncreasingIds(ds[..n]);
      assert forall j :: 0 <= j < n ==> ds[..n][j] == ds[j];
    }
  }
}
