/** The rows the operator emits: exactly when a row is true, and when its quotes are the exchange's best,
    for every exchange consistent with the diffs accepted so far. */
module Rows {
  import opened Wrappers
  import opened Books
  import opened Exchange
  import opened Client
  import opened Logic
  import opened Normalize
  import opened Pipeline
  import opened Consistency

  // ---- True quotes ----

  ghost predicate SameNumber(s: Slot, t: Slot) {
    s.side == t.side && s.price.value == t.price.value
  }

  /** Prices of the exchange that are equal as numbers are the same price. */
  ghost predicate PricesIdentified(ex: seq<Update>) {
    forall i, j :: 0 <= i < |ex| && 0 <= j < |ex| && SameNumber(ex[i].slot, ex[j].slot) ==> ex[i].slot == ex[j].slot
  }

  lemma {:induction false} HeldWasTouched(ex: seq<Update>, k: nat, slot: Slot)
    requires k <= |ex| && BookAt(ex, k).At(slot).Some?
    ensures exists i :: 0 <= i < k && ex[i].slot == slot
  {
    if ex[k - 1].slot != slot {
      HeldWasTouched(ex, k - 1, slot);
    }
  }

  /** A quote of a slot at which the exchange holds another amount is not found under another name. */
  lemma {:induction false} OtherIsNotQuoted(ex: seq<Update>, k: nat, slot: Slot, qty: real)
    requires k <= |ex| && PricesIdentified(ex)
    requires exists i :: 0 <= i < |ex| && ex[i].slot == slot
    requires !Amounts(BookAt(ex, k).At(slot), qty)
    ensures !HasQuote(BookAt(ex, k).SideOf(slot.side), slot.price.value, qty)
  {
    var m := BookAt(ex, k).SideOf(slot.side);
    forall p | p in m && p.value == slot.price.value ensures p == slot.price {
      assert BookAt(ex, k).At(Slot(slot.side, p)).Some?;
      HeldWasTouched(ex, k, Slot(slot.side, p));
      assert SameNumber(Slot(slot.side, p), slot);
    }
  }

  /** The last event of the run emitted this row. */
  ghost predicate EmittedLast(ds: seq<Delivery>, row: Row) {
    ds != [] && row in StepKey(RunKey(FRESH, ds[..|ds| - 1]).state, ds[|ds| - 1]).rows
  }

  /** Every row of a run is the row of the last event of one of its beginnings. */
  lemma {:induction false} RowIsEmitted(ds: seq<Delivery>, row: Row)
    requires row in RunKey(FRESH, ds).rows
    ensures exists i :: 0 < i <= |ds| && EmittedLast(ds[..i], row)
  {
    hide StepKey;
    var n := |ds| - 1;
    if row in RunKey(FRESH, ds[..n]).rows {
      RowIsEmitted(ds[..n], row);
      var i :| 0 < i <= n && EmittedLast(ds[..n][..i], row);
      assert ds[..n][..i] == ds[..i];
    } else {
      assert ds[..|ds|] == ds;
      assert EmittedLast(ds[..|ds|], row);
    }
  }

  lemma {:induction false} EmittedFacts(ds: seq<Delivery>, row: Row)
    requires EmittedLast(ds, row)
    ensures var d, book := ds[|ds| - 1], RunKey(FRESH, ds).state.BookOrEmpty();
            RunKey(FRESH, ds).state.last == Some(d.Id())
            && row in RowsOf(book, d) && book.bids != [] && book.asks != [] && row.lastUpdateId == d.Id()
            && row.bestBidPrice == BestOf(Bid, book.bids).price.value
            && row.bestBidQty == BestOf(Bid, book.bids).qty.value
            && row.bestAskPrice == BestOf(Ask, book.asks).price.value
            && row.bestAskQty == BestOf(Ask, book.asks).qty.value
  {
  }

  /** The quote was listed by an accepted diff. */
  lemma {:induction false} QuoteIsListed(ex: seq<Update>, ds: seq<Delivery>, side: Side)
    requires AllFaithful(ex, AcceptedDiffs(ds))
    requires RunKey(FRESH, ds).state.BookOrEmpty().SideOf(side) != []
    ensures var slot := BestSlot(side, RunKey(FRESH, ds).state.BookOrEmpty().SideOf(side));
            LatestListing(AcceptedDiffs(ds), slot).Some? && slot in ListedSlots(AcceptedDiffs(ds))
  {
    hide AcceptedDiffs, RunKey, Faithful, Effective;
    var book := RunKey(FRESH, ds).state.BookOrEmpty();
    var slot := BestSlot(side, book.SideOf(side));
    StoredIsLastSaid(ds, slot);
    BestIsListed(side, book.SideOf(side));
    EffectiveAccepted(ex, ds, slot);
    if slot !in ListedSlots(Effective(ds)) {
      UnlistedSaysNothing(Effective(ds), slot);
    }
    LatestInRange(ex, AcceptedDiffs(ds), slot);
  }

  /** No id is missing since the quote was last listed, and it quotes what was said then. */
  ghost predicate QuoteStands(es: seq<DepthEvent>, slot: Slot, qty: real, k: int) {
    UpToDate(es, slot, k) && Amounts(LastSaid(es, slot), qty)
  }

  lemma {:induction false} RowTrueWhenStanding(ex: seq<Update>, ds: seq<Delivery>, row: Row)
    requires EmittedLast(ds, row) && AllFaithful(ex, AcceptedDiffs(ds))
    requires var book, es := RunKey(FRESH, ds).state.BookOrEmpty(), AcceptedDiffs(ds);
             book.bids != [] && book.asks != []
             && QuoteStands(es, BestSlot(Bid, book.bids), row.bestBidQty, row.lastUpdateId)
             && QuoteStands(es, BestSlot(Ask, book.asks), row.bestAskQty, row.lastUpdateId)
    ensures TrueRow(ex, row)
  {
    EmittedFacts(ds, row);
    hide AcceptedDiffs, RunKey, Faithful, Effective, StepKey, RowsOf, BestOf;
    var book, es, d := RunKey(FRESH, ds).state.BookOrEmpty(), AcceptedDiffs(ds), ds[|ds| - 1];
    StoredIsReceived(ex, ds, d.Id());
    QuoteIsListed(ex, ds, Bid);
    QuoteIsListed(ex, ds, Ask);
    SaidHolds(ex, es, BestSlot(Bid, book.bids), d.Id());
    SaidHolds(ex, es, BestSlot(Ask, book.asks), d.Id());
    HeldQuotesAreTrue(ex, book, d);
  }

  /** When an id is missing since a quote was last listed, or it was last said otherwise, the row is false
      for some consistent exchange. */
  lemma {:induction false} FallenQuoteHurts(ex: seq<Update>, ds: seq<Delivery>, row: Row, side: Side)
    returns (ex': seq<Update>)
    requires EmittedLast(ds, row) && AllFaithful(ex, AcceptedDiffs(ds)) && PricesIdentified(ex)
    requires var d := RunKey(FRESH, ds).state.BookOrEmpty().SideOf(side);
             d != [] && !QuoteStands(AcceptedDiffs(ds), BestSlot(side, d),
                                     if side == Bid then row.bestBidQty else row.bestAskQty, row.lastUpdateId)
    ensures AllFaithful(ex', AcceptedDiffs(ds)) && PricesIdentified(ex') && !TrueRow(ex', row)
  {
    EmittedFacts(ds, row);
    hide AcceptedDiffs, RunKey, Effective, StepKey, RowsOf, BestOf;
    var es, k := AcceptedDiffs(ds), row.lastUpdateId;
    var slot := BestSlot(side, RunKey(FRESH, ds).state.BookOrEmpty().SideOf(side));
    var qty := if side == Bid then row.bestBidQty else row.bestAskQty;
    StoredIsReceived(ex, ds, k);
    QuoteIsListed(ex, ds, side);
    ex' := SlotCanDiffer(ex, es, slot, qty, k);
    OtherIsNotQuoted(ex', k, slot, qty);
  }

  lemma {:induction false} ListedWasTouched(ex: seq<Update>, es: seq<DepthEvent>, slot: Slot)
    requires AllFaithful(ex, es) && slot in ListedSlots(es)
    ensures exists t :: 0 <= t < |ex| && ex[t].slot == slot
  {
    var m :| 0 <= m < |es| && Lists(es[m], slot);
    assert Faithful(ex, es[m]) && Touched(ex, es[m].first, es[m].last, slot);
  }

  lemma {:induction false} SlotCanDiffer(ex: seq<Update>, es: seq<DepthEvent>, slot: Slot, qty: real, k: nat)
    returns (ex': seq<Update>)
    requires ReceivedBy(ex, es, k) && PricesIdentified(ex) && slot in ListedSlots(es) && LatestListing(es, slot).Some?
    requires !QuoteStands(es, slot, qty, k)
    ensures AllFaithful(ex', es) && PricesIdentified(ex') && |ex'| == |ex|
    ensures (exists i :: 0 <= i < |ex'| && ex'[i].slot == slot) && !Amounts(BookAt(ex', k).At(slot), qty)
  {
    ListedWasTouched(ex, es, slot);
    hide Faithful, Lists, LatestListing, LastSaid, BookAt;
    var t :| 0 <= t < |ex| && ex[t].slot == slot;
    if UpToDate(es, slot, k) {
      ex' := ex;
      SaidHolds(ex, es, slot, k);
    } else {
      ex' := CanHoldOther(ex, es, slot, k, Some(ONE));
      assert ex'[t].slot == slot;
      assert forall i :: 0 <= i < |ex'| ==> ex'[i].slot == ex[i].slot || ex'[i].slot == ex[t].slot;
    }
  }

  /** A row of any run, exactly. It is true, for every exchange consistent with the accepted diffs that does
      not write one price in two ways, if and only if for both quotes no id is missing between the last
      listing and the row, and that listing says what is quoted. */
  lemma {:induction false} RowTrueIff(ex: seq<Update>, ds: seq<Delivery>, row: Row)
    requires EmittedLast(ds, row) && AllFaithful(ex, AcceptedDiffs(ds)) && PricesIdentified(ex)
    ensures var book, es := RunKey(FRESH, ds).state.BookOrEmpty(), AcceptedDiffs(ds);
            book.bids != [] && book.asks != []
            && ((forall ex' :: AllFaithful(ex', es) && PricesIdentified(ex') ==> TrueRow(ex', row))
                <==> QuoteStands(es, BestSlot(Bid, book.bids), row.bestBidQty, row.lastUpdateId)
                     && QuoteStands(es, BestSlot(Ask, book.asks), row.bestAskQty, row.lastUpdateId))
  {
    EmittedFacts(ds, row);
    hide AcceptedDiffs, RunKey, Faithful, Effective, StepKey, RowsOf, BestOf, TrueRow, EmittedLast;
    var book, es, k := RunKey(FRESH, ds).state.BookOrEmpty(), AcceptedDiffs(ds), row.lastUpdateId;
    if !QuoteStands(es, BestSlot(Bid, book.bids), row.bestBidQty, k) {
      var ex' := FallenQuoteHurts(ex, ds, row, Bid);
    } else if !QuoteStands(es, BestSlot(Ask, book.asks), row.bestAskQty, k) {
      var ex' := FallenQuoteHurts(ex, ds, row, Ask);
    } else {
      forall ex' | AllFaithful(ex', es) && PricesIdentified(ex') ensures TrueRow(ex', row) {
        RowTrueWhenStanding(ex', ds, row);
      }
    }
  }

  // ---- Best quotes ----

  ghost predicate HasSaid(es: seq<DepthEvent>, side: Side, price: real, qty: real) {
    exists p: Decimal :: Amounts(LastSaid(es, Slot(side, p)), qty) && p.value == price
  }

  /** The row's quotes are what was said last, and nothing said last beats them. */
  ghost predicate BestOfSaid(es: seq<DepthEvent>, row: Row) {
    && HasSaid(es, Bid, row.bestBidPrice, row.bestBidQty)
    && HasSaid(es, Ask, row.bestAskPrice, row.bestAskQty)
    && forall slot :: LastSaid(es, slot).Some? ==> !Beats(slot, row)
  }

  /** Best bid and best ask, exactly. The quotes of a row are the exchange's best, for every exchange
      consistent with the accepted diffs, if and only if these cover every id from 1 to the row's and the
      quotes are the best of what they said last. */
  lemma {:induction false} RowBestIff(ex: seq<Update>, ds: seq<Delivery>, row: Row)
    requires EmittedLast(ds, row) && AllFaithful(ex, AcceptedDiffs(ds))
    ensures var es := AcceptedDiffs(ds);
            (forall ex' :: AllFaithful(ex', es) ==> BestRow(ex', row))
            <==> CoveredBetween(es, 0, row.lastUpdateId) && BestOfSaid(es, row)
  {
    EmittedFacts(ds, row);
    hide AcceptedDiffs, RunKey, Faithful, Effective, StepKey, RowsOf, BestOf, BestRow, BestOfSaid, EmittedLast;
    var es, k := AcceptedDiffs(ds), row.lastUpdateId;
    StoredIsReceived(ex, ds, k);
    if !CoveredBetween(es, 0, k) {
      var ex' := UnheardOfLevel(ex, es, k);
      UnheardOfIsBetter(ex, ds, row);
      BeatenIsNotBest(ex', row, UnlistedSlot(es));
    } else {
      forall ex' | AllFaithful(ex', es) ensures BestRow(ex', row) <==> BestOfSaid(es, row) {
        StoredIsReceived(ex', ds, k);
        CoveredRowBestIff(ex', ds, row);
      }
    }
  }

  lemma {:induction false} BeatenIsNotBest(ex: seq<Update>, row: Row, slot: Slot)
    requires 0 <= row.lastUpdateId <= |ex| && BookAt(ex, row.lastUpdateId).At(slot).Some? && Beats(slot, row)
    ensures !BestRow(ex, row)
  {
  }

  lemma {:induction false} UnheardOfIsBetter(ex: seq<Update>, ds: seq<Delivery>, row: Row)
    requires EmittedLast(ds, row) && AllFaithful(ex, AcceptedDiffs(ds))
    ensures Beats(UnlistedSlot(AcceptedDiffs(ds)), row)
  {
    EmittedFacts(ds, row);
    hide AcceptedDiffs, RunKey, Faithful, Effective, StepKey, RowsOf, BestOf, EmittedLast;
    var es := AcceptedDiffs(ds);
    QuoteIsListed(ex, ds, Bid);
    var slot := BestSlot(Bid, RunKey(FRESH, ds).state.BookOrEmpty().bids);
    var m :| 0 <= m < |es| && Lists(es[m], slot);
    assert slot.price.value <= MaxBid(es);
  }

  lemma {:induction false} CoveredRowBestIff(ex: seq<Update>, ds: seq<Delivery>, row: Row)
    requires EmittedLast(ds, row) && ReceivedBy(ex, AcceptedDiffs(ds), row.lastUpdateId)
    requires CoveredBetween(AcceptedDiffs(ds), 0, row.lastUpdateId)
    ensures BestRow(ex, row) <==> BestOfSaid(AcceptedDiffs(ds), row)
  {
    EmittedFacts(ds, row);
    hide AcceptedDiffs, RunKey, Faithful, Effective, StepKey, RowsOf, BestOf, EmittedLast, LastSaid, BookAt;
    var es, k := AcceptedDiffs(ds), row.lastUpdateId;
    forall slot ensures BookAt(ex, k).At(slot) == LastSaid(es, slot) {
      SaidIsWholeBook(ex, es, k, slot);
    }
    SaidQuote(ex, es, k, Bid, row.bestBidPrice, row.bestBidQty);
    SaidQuote(ex, es, k, Ask, row.bestAskPrice, row.bestAskQty);
    if BestOfSaid(es, row) {
      QuotedRowIsTrue(ex, RunKey(FRESH, ds).state.BookOrEmpty(), ds[|ds| - 1], row);
    }
  }

  lemma {:induction false} SaidQuote(ex: seq<Update>, es: seq<DepthEvent>, k: nat, side: Side, price: real, qty: real)
    requires k <= |ex| && forall slot :: BookAt(ex, k).At(slot) == LastSaid(es, slot)
    ensures HasQuote(BookAt(ex, k).SideOf(side), price, qty) <==> HasSaid(es, side, price, qty)
  {
    hide LastSaid, BookAt;
    var m := BookAt(ex, k).SideOf(side);
    forall p: Decimal
      ensures (p in m && p.value == price && m[p].value == qty)
              <==> Amounts(LastSaid(es, Slot(side, p)), qty) && p.value == price
    {
      assert BookAt(ex, k).At(Slot(side, p)) == LastSaid(es, Slot(side, p));
    }
  }

  /** Without late events the quotes are the exchange's best exactly when every id is covered. */
  lemma {:induction false} RowBestIffCovered(ex: seq<Update>, ds: seq<Delivery>, row: Row)
    requires EmittedLast(ds, row) && FaithfulAndInTime(ex, Records(None, ds))
    ensures var es := AcceptedDiffs(ds);
            (forall ex' :: AllFaithful(ex', es) ==> BestRow(ex', row)) <==> CoveredBetween(es, 0, row.lastUpdateId)
  {
    RowBestIff(ex, ds, row);
    EffectiveIsRecords(ds);
    EmittedFacts(ds, row);
    hide RunKey, Faithful, StepKey, RowsOf, EmittedLast, BestRow, LastSaid;
    var es, book := AcceptedDiffs(ds), RunKey(FRESH, ds).state.BookOrEmpty();
    assert Effective(ds) == es;
    StoredIsLastSaid(ds, Slot(Bid, ONE));
    forall slot ensures book.ToBook().At(slot) == LastSaid(es, slot) {
      StoredIsLastSaid(ds, slot);
    }
    BestOfStored(es, book, row);
  }

  lemma {:induction false} BestOfStored(es: seq<DepthEvent>, book: DictBook, row: Row)
    requires book.Valid() && HoldsAllSaid(es, book)
    requires book.bids != [] && book.asks != []
    requires row.bestBidPrice == BestOf(Bid, book.bids).price.value
    requires row.bestBidQty == BestOf(Bid, book.bids).qty.value
    requires row.bestAskPrice == BestOf(Ask, book.asks).price.value
    requires row.bestAskQty == BestOf(Ask, book.asks).qty.value
    ensures BestOfSaid(es, row)
  {
    hide LastSaid;
    var bid, ask := BestSlot(Bid, book.bids), BestSlot(Ask, book.asks);
    assert book.ToBook().At(bid) == LastSaid(es, bid) && book.ToBook().At(ask) == LastSaid(es, ask);
    BestIsListed(Bid, book.bids);
    BestIsListed(Ask, book.asks);
    assert Amounts(LastSaid(es, Slot(Bid, bid.price)), row.bestBidQty);
    assert Amounts(LastSaid(es, Slot(Ask, ask.price)), row.bestAskQty);
    forall slot | LastSaid(es, slot).Some? ensures !Beats(slot, row) {
      assert book.ToBook().At(slot).Some?;
      BestIsUnbeaten(book, slot);
    }
  }
}
