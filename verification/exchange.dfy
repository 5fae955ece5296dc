/** The exchange as the protocol describes it: atomic level updates numbered 1..N, and diffs that
    condense a range of them. Nothing here is code of the repository; it is what the code is
    proved against. */
module Exchange {
  import opened Books

  /** One atomic change: the slot now holds this quantity (zero: the level is gone). */
  datatype Update = Update(slot: Slot, qty: Decimal)

  function ApplyUpdate(book: Book, update: Update): Book {
    var level := Level(update.slot.price, update.qty);
    if update.slot.side == Bid then book.(bids := ApplyLevel(book.bids, level))
    else book.(asks := ApplyLevel(book.asks, level))
  }

  /** The exchange's book after its first k updates. */
  function BookAt(ex: seq<Update>, k: nat): Book
    requires k <= |ex|
  {
    if k == 0 then Book(map[], map[]) else ApplyUpdate(BookAt(ex, k - 1), ex[k - 1])
  }

  /** Some update numbered a..b changes this slot. */
  ghost predicate Touched(ex: seq<Update>, a: int, b: int, slot: Slot)
    requires 1 <= a && b <= |ex|
  {
    exists i :: a - 1 <= i < b && ex[i].slot == slot
  }

  /** A diff is faithful when it lists exactly the slots its updates touch, each with the quantity
      the exchange holds there at the diff's last id. */
  ghost predicate Faithful(ex: seq<Update>, e: DepthEvent) {
    && 1 <= e.first <= e.last <= |ex|
    && (forall slot :: Lists(e, slot) <==> Touched(ex, e.first, e.last, slot))
    && QuantitiesMatch(ex, e, Bid)
    && QuantitiesMatch(ex, e, Ask)
  }

  ghost predicate QuantitiesMatch(ex: seq<Update>, e: DepthEvent, side: Side)
    requires 0 <= e.last <= |ex|
  {
    var levels := e.SideOf(side);
    forall i :: 0 <= i < |levels| ==>
      Effect(levels[i].qty) == BookAt(ex, e.last).At(Slot(side, levels[i].price))
  }

  /** A slot untouched between two ids holds the same quantity at both. */
  lemma {:induction false} UntouchedKeeps(ex: seq<Update>, m: nat, u: nat, slot: Slot)
    requires m <= u <= |ex|
    requires !Touched(ex, m + 1, u, slot)
    ensures BookAt(ex, m).At(slot) == BookAt(ex, u).At(slot)
  {
    if m < u {
      assert ex[u - 1].slot != slot;
      UntouchedKeeps(ex, m, u - 1, slot);
    }
  }

  /** A listed slot holds, after a faithful diff, what the exchange holds at the diff's last id. */
  lemma {:induction false} FaithfulListed(ex: seq<Update>, book: Book, e: DepthEvent, slot: Slot)
    requires Faithful(ex, e) && Lists(e, slot)
    ensures ApplyDiff(book, e).At(slot) == BookAt(ex, e.last).At(slot)
  {
    var levels := e.SideOf(slot.side);
    ApplyLevelsAt(book.SideOf(slot.side), levels, slot.price);
    assert QuantitiesMatch(ex, e, slot.side);
    var i :| 0 <= i < |levels| && levels[i] == Level(slot.price, LastQty(levels, slot.price).value);
    assert Slot(slot.side, levels[i].price) == slot;
  }

  /** The overlap lemma. A faithful diff applied to a book that is right at any id m with
      first - 1 <= m <= last, on any set of slots, gives a book that is right at the diff's last id
      on those slots and on every slot the diff lists, although the diff repeats updates the book
      may already contain. */
  lemma {:induction false} FaithfulDiffOverlap(ex: seq<Update>, book: Book, m: nat, e: DepthEvent, slots: iset<Slot>)
    requires Faithful(ex, e)
    requires e.first - 1 <= m <= e.last
    requires AgreesOn(book, BookAt(ex, m), slots)
    ensures AgreesOn(ApplyDiff(book, e), BookAt(ex, e.last), slots + (iset slot | Lists(e, slot)))
  {
    forall slot | slot in slots || Lists(e, slot)
      ensures ApplyDiff(book, e).At(slot) == BookAt(ex, e.last).At(slot)
    {
      if Lists(e, slot) {
        FaithfulListed(ex, book, e, slot);
      } else {
        ApplyDiffAt(book, book, e, slot);
        assert !Touched(ex, e.first, e.last, slot);
        UntouchedKeeps(ex, m, e.last, slot);
      }
    }
  }
}
