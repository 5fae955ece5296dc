/** Price levels, depth events and two-sided books: the values the order book protocol works on. */
module Books {
  import opened Wrappers

  /** A decimal string as Binance sends it, with the number float() reads from it.
      The text determines the value, so equality is equality of the texts. */
  datatype Decimal = Decimal(text: string, value: real)

  datatype Level = Level(price: Decimal, qty: Decimal)

  datatype Side = Bid | Ask

  /** A place in a book: one price on one side. */
  datatype Slot = Slot(side: Side, price: Decimal)

  type Levels = map<Decimal, Decimal>

  datatype Book = Book(bids: Levels, asks: Levels) {
    function SideOf(side: Side): Levels {
      if side == Bid then bids else asks
    }

    /** The quantity held at a slot, None when the level is absent. */
    function At(slot: Slot): Option<Decimal> {
      Lookup(SideOf(slot.side), slot.price)
    }
  }

  /** A diff: the updates numbered first..last, condensed into one list of levels per side. */
  datatype DepthEvent = DepthEvent(first: int, last: int, bids: seq<Level>, asks: seq<Level>, timeMs: int) {
    function SideOf(side: Side): seq<Level> {
      if side == Bid then bids else asks
    }
  }

  datatype DepthSnapshot = DepthSnapshot(last: int, bids: seq<Level>, asks: seq<Level>)

  /** The record written to Kafka: a diff under its exchange and symbol (diff.timeMs is the exchange's
      event time, ingestMs the wall clock when the record was made). */
  datatype OrderBookEvent = OrderBookEvent(exchange: string, symbol: string, diff: DepthEvent, ingestMs: int)

  function Diffs(messages: seq<OrderBookEvent>): (ds: seq<DepthEvent>)
    ensures |ds| == |messages|
    ensures forall i :: 0 <= i < |ds| ==> ds[i] == messages[i].diff
  {
    seq(|messages|, i requires 0 <= i < |messages| => messages[i].diff)
  }

  /** a is the strictly better price on this side: higher for bids, lower for asks. */
  predicate Better(side: Side, a: Decimal, b: Decimal) {
    if side == Bid then a.value > b.value else a.value < b.value
  }

  function Lookup(m: Levels, price: Decimal): Option<Decimal> {
    if price in m then Some(m[price]) else None
  }

  /** What a listed quantity leaves at its price: zero deletes the level. */
  function Effect(qty: Decimal): Option<Decimal> {
    if qty.value == 0.0 then None else Some(qty)
  }

  function ApplyLevel(m: Levels, level: Level): Levels {
    if level.qty.value == 0.0 then m - {level.price} else m[level.price := level.qty]
  }

  /** The levels of one side applied in list order. */
  function ApplyLevels(m: Levels, levels: seq<Level>): Levels {
    if levels == [] then m
    else ApplyLevel(ApplyLevels(m, levels[..|levels| - 1]), levels[|levels| - 1])
  }

  function ApplyDiff(book: Book, event: DepthEvent): Book {
    Book(ApplyLevels(book.bids, event.bids), ApplyLevels(book.asks, event.asks))
  }

  /** Python's dict(pairs): a later pair replaces an earlier one, and nothing is dropped. */
  function DictOf(levels: seq<Level>): Levels {
    if levels == [] then map[]
    else DictOf(levels[..|levels| - 1])[levels[|levels| - 1].price := levels[|levels| - 1].qty]
  }

  function SnapshotBook(snapshot: DepthSnapshot): Book {
    Book(DictOf(snapshot.bids), DictOf(snapshot.asks))
  }

  ghost predicate ListsPrice(levels: seq<Level>, price: Decimal) {
    exists i :: 0 <= i < |levels| && levels[i].price == price
  }

  /** The diff says something about this slot. */
  ghost predicate Lists(event: DepthEvent, slot: Slot) {
    ListsPrice(event.SideOf(slot.side), slot.price)
  }

  /** Some diff of the list speaks about this slot. */
  ghost predicate ListedBy(events: seq<DepthEvent>, slot: Slot) {
    exists i :: 0 <= i < |events| && Lists(events[i], slot)
  }

  ghost function ListedSlots(events: seq<DepthEvent>): iset<Slot> {
    iset slot | ListedBy(events, slot)
  }

  lemma {:induction false} ListedSlotsAppend(events: seq<DepthEvent>, event: DepthEvent)
    ensures ListedSlots(events + [event]) == ListedSlots(events) + (iset slot | Lists(event, slot))
  {
    var all := events + [event];
    forall slot ensures slot in ListedSlots(all) <==> slot in ListedSlots(events) || Lists(event, slot) {
      if slot in ListedSlots(events) {
        var i :| 0 <= i < |events| && Lists(events[i], slot);
        assert all[i] == events[i];
      }
      if Lists(event, slot) {
        assert all[|events|] == event;
      }
    }
  }

  ghost predicate AgreesOn(a: Book, b: Book, slots: iset<Slot>) {
    forall slot :: slot in slots ==> a.At(slot) == b.At(slot)
  }

  /** The quantity of the last entry for a price, None when the price is not listed. */
  function LastQty(levels: seq<Level>, price: Decimal): (q: Option<Decimal>)
    ensures q.Some? <==> ListsPrice(levels, price)
    ensures q.Some? ==> exists i :: 0 <= i < |levels| && levels[i] == Level(price, q.value)
  {
    if levels == [] then None
    else
      var n := |levels| - 1;
      assert forall i :: 0 <= i < n ==> levels[i] == levels[..n][i];
      if levels[n].price == price then Some(levels[n].qty) else LastQty(levels[..n], price)
  }

  /** Only the last entry for a price counts; an unlisted price keeps what it had. */
  lemma {:induction false} ApplyLevelsAt(m: Levels, levels: seq<Level>, price: Decimal)
    ensures Lookup(ApplyLevels(m, levels), price)
            == match LastQty(levels, price) case None => Lookup(m, price) case Some(q) => Effect(q)
  {
    if levels != [] {
      ApplyLevelsAt(m, levels[..|levels| - 1], price);
    }
  }

  /** A snapshot side keeps the last quantity listed for each price, zero quantities included. */
  lemma {:induction false} DictOfAt(levels: seq<Level>, price: Decimal)
    ensures Lookup(DictOf(levels), price) == LastQty(levels, price)
  {
    if levels != [] {
      DictOfAt(levels[..|levels| - 1], price);
    }
  }

  /** A slot the diff does not speak about is left alone; a listed one no longer depends on
      what the book held before. */
  lemma {:induction false} ApplyDiffAt(a: Book, b: Book, event: DepthEvent, slot: Slot)
    ensures !Lists(event, slot) ==> ApplyDiff(a, event).At(slot) == a.At(slot)
    ensures Lists(event, slot) ==> ApplyDiff(a, event).At(slot) == ApplyDiff(b, event).At(slot)
  {
    var levels := event.SideOf(slot.side);
    ApplyLevelsAt(a.SideOf(slot.side), levels, slot.price);
    ApplyLevelsAt(b.SideOf(slot.side), levels, slot.price);
  }

  /** LastQty is the quantity of the last entry: no entry behind it has the price. */
  lemma {:induction false} LastQtyIsLast(levels: seq<Level>, price: Decimal, i: nat)
    requires i < |levels| && levels[i].price == price
    requires forall j :: i < j < |levels| ==> levels[j].price != price
    ensures LastQty(levels, price) == Some(levels[i].qty)
  {
    if i < |levels| - 1 {
      LastQtyIsLast(levels[..|levels| - 1], price, i);
    }
  }

  /** What a slot holds after a diff, bids from its bids and asks from its asks: the last listed quantity,
      nothing when that is zero, and what it held before when it is not listed. */
  lemma {:induction false} ApplyDiffSets(book: Book, event: DepthEvent, price: Decimal)
    ensures Lookup(ApplyDiff(book, event).bids, price)
            == match LastQty(event.bids, price)
               case None => Lookup(book.bids, price)
               case Some(q) => if q.value == 0.0 then None else Some(q)
    ensures Lookup(ApplyDiff(book, event).asks, price)
            == match LastQty(event.asks, price)
               case None => Lookup(book.asks, price)
               case Some(q) => if q.value == 0.0 then None else Some(q)
  {
    ApplyLevelsAt(book.bids, event.bids, price);
    ApplyLevelsAt(book.asks, event.asks, price);
  }

  /** Books that agree everywhere are the same book. */
  lemma {:induction false} AgreeEverywhere(a: Book, b: Book)
    requires forall slot :: a.At(slot) == b.At(slot)
    ensures a == b
  {
    SameLookups(a.bids, b.bids, Bid, a, b);
    SameLookups(a.asks, b.asks, Ask, a, b);
  }

  lemma {:induction false} SameLookups(m: Levels, n: Levels, side: Side, a: Book, b: Book)
    requires forall slot :: a.At(slot) == b.At(slot)
    requires m == a.SideOf(side) && n == b.SideOf(side)
    ensures m == n
  {
    forall p ensures Lookup(m, p) == Lookup(n, p) {
      assert a.At(Slot(side, p)) == b.At(Slot(side, p));
    }
    forall p ensures p in m <==> p in n {
      assert Lookup(m, p) == Lookup(n, p);
    }
    forall p | p in m ensures m[p] == n[p] {
      assert Lookup(m, p) == Lookup(n, p);
    }
  }
}
