/** What the operator can know. It sees diffs, not the exchange: any exchange that is consistent with
    the diffs it received may be the real one. Each theorem here says exactly when the stored book is right for
    all of them, in terms of the accepted diffs, late ones included, and the stored state alone. */
module Consistency {
  import opened Wrappers
  import opened Books
  import opened Exchange
  import opened OrderBooks
  import opened Client
  import opened Logic
  import opened Normalize
  import opened Pipeline

  // ---- Changing an update that no diff reports ----

  const ONE := Decimal("1.0", 1.0)
  const ZERO := Decimal("0.0", 0.0)

  /** A quantity that leaves something else than v. */
  function OtherQty(v: Option<Decimal>): (q: Decimal)
    ensures Effect(q) != v
    ensures v.Some? ==> Effect(q) == None
  {
    if v.Some? then ZERO else ONE
  }

  lemma {:induction false} UpdateTakesEffect(ex: seq<Update>, j: nat)
    requires 1 <= j <= |ex|
    ensures BookAt(ex, j).At(ex[j - 1].slot) == Effect(ex[j - 1].qty)
  {
  }

  lemma {:induction false} SamePrefix(ex: seq<Update>, ex': seq<Update>, k: nat)
    requires k <= |ex| && k <= |ex'| && ex[..k] == ex'[..k]
    ensures BookAt(ex, k) == BookAt(ex', k)
  {
    if k > 0 {
      assert ex[..k][..k - 1] == ex[..k - 1] && ex'[..k][..k - 1] == ex'[..k - 1];
      assert ex[..k][k - 1] == ex'[..k][k - 1];
      SamePrefix(ex, ex', k - 1);
    }
  }

  /** What a touched slot holds is decided by the updates of the range that touches it. */
  lemma {:induction false} TouchedDecides(ex: seq<Update>, ex': seq<Update>, a: nat, b: nat, slot: Slot)
    requires 1 <= a && b <= |ex| && |ex| == |ex'|
    requires forall i :: a - 1 <= i < b ==> ex[i] == ex'[i]
    requires Touched(ex, a, b, slot)
    ensures BookAt(ex, b).At(slot) == BookAt(ex', b).At(slot)
  {
    if ex[b - 1].slot == slot {
      UpdateTakesEffect(ex, b);
      UpdateTakesEffect(ex', b);
    } else {
      TouchedDecides(ex, ex', a, b - 1, slot);
    }
  }

  /** A diff says nothing about an update outside its range. */
  lemma {:induction false} ReplaceKeepsFaithful(ex: seq<Update>, e: DepthEvent, j: nat, u: Update)
    requires Faithful(ex, e) && 1 <= j <= |ex| && !(e.first <= j <= e.last)
    ensures Faithful(ex[j - 1 := u], e)
  {
    var ex' := ex[j - 1 := u];
    forall slot ensures Touched(ex', e.first, e.last, slot) <==> Touched(ex, e.first, e.last, slot) {
      assert forall i :: e.first - 1 <= i < e.last ==> ex'[i] == ex[i];
    }
    ReplaceKeepsQuantities(ex, e, j, u, Bid);
    ReplaceKeepsQuantities(ex, e, j, u, Ask);
  }

  lemma {:induction false} ReplaceKeepsQuantities(ex: seq<Update>, e: DepthEvent, j: nat, u: Update, side: Side)
    requires Faithful(ex, e) && 1 <= j <= |ex| && !(e.first <= j <= e.last)
    ensures QuantitiesMatch(ex[j - 1 := u], e, side)
  {
    var levels := e.SideOf(side);
    assert QuantitiesMatch(ex, e, side);
    forall i | 0 <= i < |levels|
      ensures Effect(levels[i].qty) == BookAt(ex[j - 1 := u], e.last).At(Slot(side, levels[i].price))
    {
      assert Lists(e, Slot(side, levels[i].price));
      TouchedDecides(ex, ex[j - 1 := u], e.first, e.last, Slot(side, levels[i].price));
    }
  }

  /** The replaced update decides what its slot holds until the slot is touched again. */
  lemma {:induction false} ReplacedHolds(ex: seq<Update>, j: nat, u: Update, k: nat)
    requires 1 <= j <= k <= |ex|
    requires forall i :: j <= i < k ==> ex[i].slot != u.slot
    ensures BookAt(ex[j - 1 := u], k).At(u.slot) == Effect(u.qty)
    ensures forall m: nat :: m < j ==> BookAt(ex[j - 1 := u], m) == BookAt(ex, m)
  {
    var ex' := ex[j - 1 := u];
    UpdateTakesEffect(ex', j);
    assert !Touched(ex', j + 1, k, u.slot) by {
      assert forall i :: j <= i < k ==> ex'[i] == ex[i];
    }
    UntouchedKeeps(ex', j, k, u.slot);
    forall m: nat | m < j ensures BookAt(ex', m) == BookAt(ex, m) {
      assert ex'[..m] == ex[..m];
      SamePrefix(ex', ex, m);
    }
  }

  // ---- One accepted diff ----

  /** When an accepted diff skips an id and some known slot is not listed by it, an exchange with the same
      first k updates, consistent with the book and the diff, changed that slot in a skipped update; the
      operator's book is then wrong. */
  lemma {:induction false} SkippedIdCanHurt(ex: seq<Update>, k: nat, slots: iset<Slot>, book: DictBook, e: DepthEvent,
                                            slot: Slot)
    returns (ex': seq<Update>)
    requires SubBook(ex, k, slots, book) && Faithful(ex, e) && k + 1 < e.first
    requires slot in slots && !Lists(e, slot)
    ensures |ex'| == |ex| && ex'[..k] == ex[..k]
    ensures SubBook(ex', k, slots, book) && Faithful(ex', e)
    ensures BookAt(ex', e.last).At(slot) != book.ToBook().At(slot)
    ensures !SubBook(ex', e.last, slots + SlotsOf(e), NextBook(book, e))
  {
    var held := BookAt(ex, k).At(slot);
    var j := e.first - 1;
    var u := Update(slot, OtherQty(held));
    ex' := ex[j - 1 := u];
    ReplaceKeepsFaithful(ex, e, j, u);
    assert !Touched(ex, e.first, e.last, slot);
    ReplacedHolds(ex, j, u, e.last);
    assert BookAt(ex', k) == BookAt(ex, k);
    NextBookRefines(book, e);
    ApplyDiffAt(book.ToBook(), book.ToBook(), e, slot);
    assert NextBook(book, e).ToBook().At(slot) == held;
  }

  /** The guard that OrderBook.apply has and the operator lacks, exactly. After an accepted diff the book
      is right, whatever exchange is consistent with the stored book and the diff, if and only if the diff
      starts at most one past the stored id or lists every slot the book knows. */
  lemma {:induction false} MissingGuardIsExact(ex: seq<Update>, k: nat, slots: iset<Slot>,
                                               book: DictBook, e: DepthEvent)
    requires SubBook(ex, k, slots, book) && Faithful(ex, e) && k < e.last
    ensures (forall ex' :: SubBook(ex', k, slots, book) && Faithful(ex', e) ==>
                           SubBook(ex', e.last, slots + SlotsOf(e), NextBook(book, e)))
            <==> e.first <= k + 1 || slots <= SlotsOf(e)
  {
    if e.first <= k + 1 || slots <= SlotsOf(e) {
      forall ex' | SubBook(ex', k, slots, book) && Faithful(ex', e)
        ensures SubBook(ex', e.last, slots + SlotsOf(e), NextBook(book, e))
      {
        if e.first <= k + 1 {
          ContiguousKeepsSame(ex', k, e, slots);
        }
        AcceptedDiff(ex', k, slots, book, e);
      }
    } else {
      var slot :| slot in slots && slot !in SlotsOf(e);
      var ex' := SkippedIdCanHurt(ex, k, slots, book, e, slot);
    }
  }

  // ---- One late event ----

  /** The stored book already holds what the diff says about every known slot it lists. */
  ghost predicate SaysNothingNew(book: DictBook, slots: iset<Slot>, e: DepthEvent) {
    forall slot :: slot in slots && Lists(e, slot) ==>
      book.ToBook().At(slot) == Effect(LastQty(e.SideOf(slot.side), slot.price).value)
  }

  /** A late event records its id and drops its levels. When it continues the stored id, the book stays
      right at the recorded id exactly when the dropped levels say nothing new about the known slots. */
  lemma {:induction false} LateDropExact(ex: seq<Update>, k: nat, slots: iset<Slot>, s: KeyState, d: Delivery)
    requires Faithful(ex, d.msg.diff) && d.msg.diff.first <= k + 1
    requires s.last == Some(k) && k < d.Id() && IsLate(d)
    ensures var after := StepKey(s, d).state;
            after.last == Some(d.Id())
            && (SubBook(ex, k, slots, s.BookOrEmpty()) ==>
                  (SubBook(ex, d.Id(), slots, after.BookOrEmpty())
                   <==> SaysNothingNew(s.BookOrEmpty(), slots, d.msg.diff)))
  {
    var book, e := s.BookOrEmpty(), d.msg.diff;
    if SubBook(ex, k, slots, book) {
      ContiguousKeepsSame(ex, k, e, slots);
      ListedHolds(ex, e, slots);
      assert forall slot :: slot in slots && !Lists(e, slot) ==> slot in slots - SlotsOf(e);
    }
  }

  /** The same for every exchange consistent with the stored book and the late diff, missing ids included. */
  lemma {:induction false} LateDropRightIff(ex: seq<Update>, k: nat, slots: iset<Slot>, s: KeyState, d: Delivery)
    requires SubBook(ex, k, slots, s.BookOrEmpty()) && Faithful(ex, d.msg.diff)
    requires s.last == Some(k) && k < d.Id() && IsLate(d)
    ensures var after, e := StepKey(s, d).state, d.msg.diff;
            after.last == Some(e.last)
            && ((forall ex' :: SubBook(ex', k, slots, s.BookOrEmpty()) && Faithful(ex', e) ==>
                               SubBook(ex', e.last, slots, after.BookOrEmpty()))
                <==> SaysNothingNew(s.BookOrEmpty(), slots, e) && (e.first <= k + 1 || slots <= SlotsOf(e)))
  {
    var book, e := s.BookOrEmpty(), d.msg.diff;
    if e.first <= k + 1 {
      forall ex' | SubBook(ex', k, slots, book) && Faithful(ex', e)
        ensures SubBook(ex', e.last, slots, book) <==> SaysNothingNew(book, slots, e)
      {
        LateDropExact(ex', k, slots, s, d);
      }
    } else if slots <= SlotsOf(e) {
      forall ex' | SubBook(ex', k, slots, book) && Faithful(ex', e)
        ensures SubBook(ex', e.last, slots, book) <==> SaysNothingNew(book, slots, e)
      {
        ListedHolds(ex', e, slots);
      }
    } else {
      var slot :| slot in slots && slot !in SlotsOf(e);
      var ex' := SkippedIdCanHurt(ex, k, slots, book, e, slot);
    }
  }

  lemma {:induction false} ListedHolds(ex: seq<Update>, e: DepthEvent, slots: iset<Slot>)
    requires Faithful(ex, e)
    ensures forall slot :: slot in slots && Lists(e, slot) ==>
              BookAt(ex, e.last).At(slot) == Effect(LastQty(e.SideOf(slot.side), slot.price).value)
  {
    forall slot | slot in slots && Lists(e, slot)
      ensures BookAt(ex, e.last).At(slot) == Effect(LastQty(e.SideOf(slot.side), slot.price).value)
    {
      var none := Book(map[], map[]);
      FaithfulListed(ex, none, e, slot);
      ApplyLevelsAt(none.SideOf(slot.side), e.SideOf(slot.side), slot.price);
    }
  }

  // ---- Any run ----

  /** Every id behind a up to k is covered by some diff. */
  ghost predicate CoveredBetween(es: seq<DepthEvent>, a: int, k: int) {
    forall j :: a < j <= k ==> Covered(es, j)
  }

  /** No id is missing since the slot was last listed. */
  ghost predicate UpToDate(es: seq<DepthEvent>, slot: Slot, k: int) {
    match LatestListing(es, slot)
    case None => true
    case Some(u) => CoveredBetween(es, u, k)
  }

  /** The diffs have increasing ids, are faithful, and end by k. */
  ghost predicate ReceivedBy(ex: seq<Update>, es: seq<DepthEvent>, k: int) {
    && IdsIncrease(es) && AllFaithful(ex, es) && 0 <= k <= |ex|
    && forall i :: 0 <= i < |es| ==> es[i].last <= k
  }

  lemma {:induction false} LatestIsHighest(es: seq<DepthEvent>, slot: Slot, m: nat)
    requires IdsIncrease(es) && m < |es| && Lists(es[m], slot)
    ensures LatestListing(es, slot).Some? && es[m].last <= LatestListing(es, slot).value
  {
    var n := |es| - 1;
    if !Lists(es[n], slot) {
      LatestIsHighest(es[..n], slot, m);
    }
  }

  /** A slot that no diff behind id a lists is untouched while the ids are covered. */
  lemma {:induction false} CoveredUntouched(ex: seq<Update>, es: seq<DepthEvent>, slot: Slot, a: nat, k: nat)
    requires AllFaithful(ex, es) && a <= k <= |ex| && CoveredBetween(es, a, k)
    requires forall m :: 0 <= m < |es| && Lists(es[m], slot) ==> es[m].last <= a
    ensures forall i :: a <= i < k ==> ex[i].slot != slot
  {
    forall i | a <= i < k ensures ex[i].slot != slot {
      assert Covered(es, i + 1);
      var m :| 0 <= m < |es| && es[m].first <= i + 1 <= es[m].last;
      assert Faithful(ex, es[m]) && !Touched(ex, es[m].first, es[m].last, slot);
    }
  }

  lemma {:induction false} LastUncovered(es: seq<DepthEvent>, a: nat, k: nat) returns (j: nat)
    requires !CoveredBetween(es, a, k)
    ensures a < j <= k && !Covered(es, j) && CoveredBetween(es, j, k)
  {
    if !Covered(es, k) {
      j := k;
    } else {
      j := LastUncovered(es, a, k - 1);
    }
  }

  /** When an id behind a is covered by no diff, an exchange consistent with all diffs, equal up to a,
      holds at k something else than v at a slot that no diff behind a lists. */
  lemma {:induction false} UncoveredIdCanChange(ex: seq<Update>, es: seq<DepthEvent>, slot: Slot, a: nat, k: nat,
                                                v: Option<Decimal>)
    returns (ex': seq<Update>)
    requires AllFaithful(ex, es) && a <= k <= |ex| && !CoveredBetween(es, a, k)
    requires forall m :: 0 <= m < |es| && Lists(es[m], slot) ==> es[m].last <= a
    ensures |ex'| == |ex| && (forall i :: 0 <= i < |ex| ==> ex'[i] == ex[i] || (i >= a && ex'[i].slot == slot))
    ensures AllFaithful(ex', es) && BookAt(ex', a) == BookAt(ex, a)
    ensures BookAt(ex', k).At(slot) == Effect(OtherQty(v))
  {
    var j := LastUncovered(es, a, k);
    var u := Update(slot, OtherQty(v));
    ex' := ex[j - 1 := u];
    CoveredUntouched(ex, es, slot, j, k);
    ReplacedHolds(ex, j, u, k);
    forall m | 0 <= m < |es| ensures Faithful(ex', es[m]) {
      ReplaceKeepsFaithful(ex, es[m], j, u);
    }
  }

  lemma {:induction false} LatestIsReached(ex: seq<Update>, es: seq<DepthEvent>, slot: Slot, k: nat)
    requires ReceivedBy(ex, es, k) && LatestListing(es, slot).Some?
    ensures 0 <= LatestListing(es, slot).value <= k
  {
    var n := |es| - 1;
    if !Lists(es[n], slot) {
      assert forall i :: 0 <= i < n ==> es[..n][i] == es[i];
      LatestIsReached(ex, es[..n], slot, k);
    } else {
      assert Faithful(ex, es[n]);
    }
  }

  /** What the latest diff that lists a slot says about it: a quantity, or None for a deletion, and also
      None when no diff lists the slot. */
  ghost function LastSaid(es: seq<DepthEvent>, slot: Slot): Option<Decimal> {
    if es == [] then None
    else
      var n := |es| - 1;
      if Lists(es[n], slot) then Effect(LastQty(es[n].SideOf(slot.side), slot.price).value) else LastSaid(es[..n], slot)
  }

  /** The diffs the operator accepted, late ones included. */
  ghost function AcceptedDiffs(ds: seq<Delivery>): seq<DepthEvent> {
    DiffsOf(Records(None, ds))
  }

  lemma {:induction false} HeldIsLastSaid(ex: seq<Update>, es: seq<DepthEvent>, slot: Slot)
    requires AllFaithful(ex, es)
    ensures HeldWhenListed(ex, es, slot) == LastSaid(es, slot)
  {
    if es != [] {
      var n := |es| - 1;
      HeldIsLastSaid(ex, es[..n], slot);
      ListedHolds(ex, es[n], iset{slot});
    }
  }

  /** Without any exchange: the stored book is what the diffs that reached it last said, slot by slot. */
  lemma {:induction false} StoredIsLastSaid(ds: seq<Delivery>, slot: Slot)
    ensures var book := RunKey(FRESH, ds).state.BookOrEmpty();
            book.Valid() && book.ToBook().At(slot) == LastSaid(Effective(ds), slot)
  {
    if ds != [] {
      var n := |ds| - 1;
      var front := Effective(ds[..n]);
      StoredIsLastSaid(ds[..n], slot);
      RecordIffAccepted(FRESH, ds);
      StoredStep(RunKey(FRESH, ds[..n]).state.BookOrEmpty(), front, ds[n].msg.diff, slot);
      assert front + [] == front;
    }
  }

  lemma {:induction false} StoredStep(book: DictBook, es: seq<DepthEvent>, e: DepthEvent, slot: Slot)
    requires book.Valid() && book.ToBook().At(slot) == LastSaid(es, slot)
    ensures NextBook(book, e).Valid() && NextBook(book, e).ToBook().At(slot) == LastSaid(es + [e], slot)
  {
    NextBookRefines(book, e);
    assert (es + [e])[|es|] == e && (es + [e])[..|es|] == es;
    ApplyLevelsAt(book.ToBook().SideOf(slot.side), e.SideOf(slot.side), slot.price);
  }

  /** The accepted diffs have increasing ids, none above the stored id, and those that reached the book are
      among them. */
  lemma {:induction false} AcceptedIncrease(ds: seq<Delivery>)
    ensures IdsIncrease(AcceptedDiffs(ds))
    ensures forall e :: e in AcceptedDiffs(ds) ==> IsDuplicate(RunKey(FRESH, ds).state.last, e.last)
    ensures forall e :: e in Effective(ds) ==> e in AcceptedDiffs(ds)
  {
    if ds != [] {
      var n := |ds| - 1;
      AcceptedIncrease(ds[..n]);
      RecordIffAccepted(FRESH, ds);
      AcceptedStep(ds);
      var front := AcceptedDiffs(ds[..n]);
      hide AcceptedDiffs, RunKey;
      forall i | 0 <= i < |front| ensures IsDuplicate(RunKey(FRESH, ds[..n]).state.last, front[i].last) {
        assert front[i] in front;
      }
      StoredGrows(ds);
    }
  }

  lemma {:induction false} AcceptedStep(ds: seq<Delivery>)
    requires ds != []
    ensures var n := |ds| - 1;
            AcceptedDiffs(ds) == AcceptedDiffs(ds[..n]) + if IsRecord(None, ds, n) then [ds[n].msg.diff] else []
  {
  }

  lemma {:induction false} StoredGrows(ds: seq<Delivery>)
    requires ds != []
    ensures var n := |ds| - 1;
            var before, last := RunKey(FRESH, ds[..n]).state.last, RunKey(FRESH, ds).state.last;
            IsDuplicate(last, ds[n].Id()) && forall id :: IsDuplicate(before, id) ==> IsDuplicate(last, id)
  {
  }

  lemma {:induction false} EffectiveAccepted(ex: seq<Update>, ds: seq<Delivery>, slot: Slot)
    requires AllFaithful(ex, AcceptedDiffs(ds))
    ensures AllFaithful(ex, Effective(ds))
    ensures slot in ListedSlots(Effective(ds)) ==> slot in ListedSlots(AcceptedDiffs(ds))
  {
    AcceptedIncrease(ds);
    var es, all := Effective(ds), AcceptedDiffs(ds);
    hide AcceptedDiffs, Effective, Lists, Faithful;
    forall i | 0 <= i < |es| ensures Faithful(ex, es[i]) {
      assert es[i] in all;
    }
    if slot in ListedSlots(es) {
      var i :| 0 <= i < |es| && Lists(es[i], slot);
      assert es[i] in all;
      var j :| 0 <= j < |all| && all[j] == es[i];
      assert Lists(all[j], slot);
    }
  }

  /** While no id is missing since a slot was last listed, the exchange holds there what was said last. */
  lemma {:induction false} SaidHolds(ex: seq<Update>, es: seq<DepthEvent>, slot: Slot, k: nat)
    requires ReceivedBy(ex, es, k) && LatestListing(es, slot).Some? && UpToDate(es, slot, k)
    ensures BookAt(ex, k).At(slot) == LastSaid(es, slot)
  {
    HeldIsLastSaid(ex, es, slot);
    LatestInRange(ex, es, slot);
    LatestIsReached(ex, es, slot, k);
    var a := LatestListing(es, slot).value;
    forall m | 0 <= m < |es| && Lists(es[m], slot) ensures es[m].last <= a {
      LatestIsHighest(es, slot, m);
    }
    CoveredUntouched(ex, es, slot, a, k);
    UntouchedKeeps(ex, a, k, slot);
  }

  /** When an id is missing since, some exchange consistent with all the diffs holds something else. */
  lemma {:induction false} CanHoldOther(ex: seq<Update>, es: seq<DepthEvent>, slot: Slot, k: nat, v: Option<Decimal>)
    returns (ex': seq<Update>)
    requires ReceivedBy(ex, es, k) && LatestListing(es, slot).Some? && !UpToDate(es, slot, k)
    ensures |ex'| == |ex| && (forall i :: 0 <= i < |ex| ==> ex'[i] == ex[i] || ex'[i].slot == slot)
    ensures AllFaithful(ex', es) && BookAt(ex', k).At(slot) == Effect(OtherQty(v))
  {
    LatestIsReached(ex, es, slot, k);
    var a := LatestListing(es, slot).value;
    forall m | 0 <= m < |es| && Lists(es[m], slot) ensures es[m].last <= a {
      LatestIsHighest(es, slot, m);
    }
    ex' := UncoveredIdCanChange(ex, es, slot, a, k, v);
  }

  lemma {:induction false} EffectiveIsRecords(ds: seq<Delivery>)
    requires forall i :: 0 <= i < |Records(None, ds)| ==> !IsLate(Records(None, ds)[i])
    ensures Effective(ds) == DiffsOf(Records(None, ds))
  {
    if ds != [] {
      var n := |ds| - 1;
      var rs := Records(None, ds);
      assert forall i :: 0 <= i < |Records(None, ds[..n])| ==> Records(None, ds[..n])[i] == rs[i];
      EffectiveIsRecords(ds[..n]);
      if IsRecord(None, ds, n) {
        assert rs[|rs| - 1] == ds[n];
      }
    }
  }

  /** The operator's book after any run on a fresh key, whatever gaps, reconnects, duplicates and late
      events it had: at an id k that no accepted diff exceeds the book is right on the slots that reached
      it, for every exchange consistent with all accepted diffs, the late ones included, exactly when for
      each of these slots no id is missing since it was last listed and the book holds what was said last. */
  lemma {:induction false} FlinkBookRightIff(ex: seq<Update>, ds: seq<Delivery>, k: nat)
    requires ReceivedBy(ex, AcceptedDiffs(ds), k)
    ensures var es, book, slots := AcceptedDiffs(ds), RunKey(FRESH, ds).state.BookOrEmpty(), ListedSlots(Effective(ds));
            (forall ex' :: AllFaithful(ex', es) && k <= |ex'| ==> SubBook(ex', k, slots, book))
            <==> forall slot :: slot in slots ==> SlotStands(es, slot, k, book)
  {
    var es, book, slots := AcceptedDiffs(ds), RunKey(FRESH, ds).state.BookOrEmpty(), ListedSlots(Effective(ds));
    if forall slot :: slot in slots ==> SlotStands(es, slot, k, book) {
      forall ex' | AllFaithful(ex', es) && k <= |ex'| ensures SubBook(ex', k, slots, book) {
        RightWhenStanding(ex', ds, k);
      }
    } else {
      var slot :| slot in slots && !SlotStands(es, slot, k, book);
      var ex' := FallenSlotHurts(ex, ds, k, slot);
    }
  }

  /** No id is missing since the slot was last listed, and the book holds what was said then. */
  ghost predicate SlotStands(es: seq<DepthEvent>, slot: Slot, k: int, book: DictBook) {
    UpToDate(es, slot, k) && book.ToBook().At(slot) == LastSaid(es, slot)
  }

  lemma {:induction false} FallenSlotHurts(ex: seq<Update>, ds: seq<Delivery>, k: nat, slot: Slot)
    returns (ex': seq<Update>)
    requires ReceivedBy(ex, AcceptedDiffs(ds), k) && slot in ListedSlots(Effective(ds))
    requires !SlotStands(AcceptedDiffs(ds), slot, k, RunKey(FRESH, ds).state.BookOrEmpty())
    ensures |ex'| == |ex| && AllFaithful(ex', AcceptedDiffs(ds))
    ensures BookAt(ex', k).At(slot) != RunKey(FRESH, ds).state.BookOrEmpty().ToBook().At(slot)
  {
    var es := AcceptedDiffs(ds);
    EffectiveAccepted(ex, ds, slot);
    LatestInRange(ex, es, slot);
    hide AcceptedDiffs, RunKey, Faithful;
    if UpToDate(es, slot, k) {
      ex' := ex;
      SaidHolds(ex, es, slot, k);
    } else {
      ex' := CanHoldOther(ex, es, slot, k, RunKey(FRESH, ds).state.BookOrEmpty().ToBook().At(slot));
    }
  }

  lemma {:induction false} RightWhenStanding(ex: seq<Update>, ds: seq<Delivery>, k: nat)
    requires ReceivedBy(ex, AcceptedDiffs(ds), k)
    requires var book := RunKey(FRESH, ds).state.BookOrEmpty();
             forall slot :: slot in ListedSlots(Effective(ds)) ==> SlotStands(AcceptedDiffs(ds), slot, k, book)
    ensures SubBook(ex, k, ListedSlots(Effective(ds)), RunKey(FRESH, ds).state.BookOrEmpty())
  {
    hide AcceptedDiffs, RunKey, Faithful, Effective;
    var es, book := AcceptedDiffs(ds), RunKey(FRESH, ds).state.BookOrEmpty();
    forall slot
      ensures book.Valid()
      ensures book.ToBook().At(slot) == if slot in ListedSlots(Effective(ds)) then BookAt(ex, k).At(slot) else None
    {
      StoredIsLastSaid(ds, slot);
      EffectiveAccepted(ex, ds, slot);
      if slot in ListedSlots(Effective(ds)) {
        LatestInRange(ex, es, slot);
        SaidHolds(ex, es, slot, k);
      } else {
        UnlistedSaysNothing(Effective(ds), slot);
      }
    }
    assert book.Valid() by {
      StoredIsLastSaid(ds, Slot(Bid, ONE));
    }
  }

  lemma {:induction false} UnlistedSaysNothing(es: seq<DepthEvent>, slot: Slot)
    requires slot !in ListedSlots(es)
    ensures LastSaid(es, slot) == None && LatestListing(es, slot) == None
  {
    if es != [] {
      var n := |es| - 1;
      assert es == es[..n] + [es[n]];
      ListedSlotsAppend(es[..n], es[n]);
      UnlistedSaysNothing(es[..n], slot);
    }
  }

  /** Deliveries that are in time all reach the book once accepted. */
  lemma {:induction false} AllInTime(ds: seq<Delivery>)
    requires forall i :: 0 <= i < |ds| ==> !IsLate(ds[i])
    ensures Effective(ds) == AcceptedDiffs(ds)
  {
    RecordsAreDelivered(ds);
    var rs := Records(None, ds);
    forall i | 0 <= i < |rs| ensures !IsLate(rs[i]) {
      assert rs[i] in ds;
    }
    EffectiveIsRecords(ds);
  }

  lemma {:induction false} StoredIsReceived(ex: seq<Update>, ds: seq<Delivery>, k: int)
    requires RunKey(FRESH, ds).state.last == Some(k) && AllFaithful(ex, AcceptedDiffs(ds))
    ensures ReceivedBy(ex, AcceptedDiffs(ds), k)
  {
    AcceptedIncrease(ds);
    var es := AcceptedDiffs(ds);
    StoredIsAccepted(ds);
    forall i | 0 <= i < |es| ensures es[i].last <= k {
      assert es[i] in es;
    }
    assert Faithful(ex, es[|es| - 1]);
  }

  lemma {:induction false} StoredIsAccepted(ds: seq<Delivery>)
    requires RunKey(FRESH, ds).state.last.Some?
    ensures var es := AcceptedDiffs(ds); es != [] && RunKey(FRESH, ds).state.last == Some(es[|es| - 1].last)
  {
    RecordIffAccepted(FRESH, ds);
    AcceptedStep(ds);
    if !IsRecord(None, ds, |ds| - 1) {
      StoredIsAccepted(ds[..|ds| - 1]);
    }
  }

  // ---- One session ----

  /** Behind the id at which the live phase began a session's diffs leave nothing out. */
  lemma {:induction false} SessionCovers(symbol: string, feed: Feed, ds: seq<Delivery>, j: int)
    requires LiveStart(feed).Some? && DeliveredInTime(SessionProduced(symbol, feed), ds)
    requires RunKey(FRESH, ds).state.last.Some? && LiveStart(feed).value.last < j <= RunKey(FRESH, ds).state.last.value
    ensures Covered(AcceptedDiffs(ds), j)
  {
    var start, sent := LiveStart(feed).value, SessionProduced(symbol, feed);
    ProducedRun(start, MessagesOf(symbol, feed.live), feed.sendFailsAt);
    SecuredRun(start, sent, ds);
    NothingSkipped(start, Diffs(sent), j);
    AppliedAreAccepted(start, sent, ds);
    var applied, all := AppliedDiffs(start, Diffs(sent)), AcceptedDiffs(ds);
    var i :| 0 <= i < |applied| && applied[i].first <= j <= applied[i].last;
    assert applied[i] in all;
  }

  lemma {:induction false} AppliedAreAccepted(start: BookState, messages: seq<OrderBookEvent>, ds: seq<Delivery>)
    requires DeliveredInTime(messages, ds) && Run(start, Diffs(messages)).gapAt.None?
    ensures forall e :: e in AppliedDiffs(start, Diffs(messages)) ==> e in AcceptedDiffs(ds)
  {
    if messages != [] {
      var n := |messages| - 1;
      var es := Diffs(messages);
      assert Diffs(messages[..n]) == es[..n] && es[n] == ds[n].msg.diff;
      AppliedAreAccepted(start, messages[..n], ds[..n]);
      SecuredRun(start, messages[..n], ds[..n]);
      RecordIffAccepted(FRESH, ds);
      AcceptedStep(ds);
      hide AcceptedDiffs, RunKey, IsRecord, Records;
    }
  }

  /** The operator's book after one session, exactly. It is right on its slots, for every exchange consistent
      with what was produced, if and only if no id up to the one at which the live phase began is missing
      since a slot was last listed. */
  lemma {:induction false} SessionBookRightIff(ex: seq<Update>, symbol: string, feed: Feed, ds: seq<Delivery>, k: nat)
    requires LiveStart(feed).Some? && DeliveredInTime(SessionProduced(symbol, feed), ds)
    requires RunKey(FRESH, ds).state.last == Some(k) && AllFaithful(ex, AcceptedDiffs(ds))
    ensures var es, book := AcceptedDiffs(ds), RunKey(FRESH, ds).state.BookOrEmpty();
            (forall ex' :: AllFaithful(ex', es) && k <= |ex'| ==> SubBook(ex', k, ListedSlots(es), book))
            <==> forall slot :: slot in ListedSlots(es) ==> UpToDate(es, slot, Min(k, LiveStart(feed).value.last))
  {
    var es, book := AcceptedDiffs(ds), RunKey(FRESH, ds).state.BookOrEmpty();
    AllInTime(ds);
    StoredIsReceived(ex, ds, k);
    FlinkBookRightIff(ex, ds, k);
    forall slot
      ensures SlotStands(es, slot, k, book) <==> UpToDate(es, slot, Min(k, LiveStart(feed).value.last))
    {
      StoredIsLastSaid(ds, slot);
      forall j | LiveStart(feed).value.last < j <= k ensures Covered(es, j) {
        SessionCovers(symbol, feed, ds, j);
      }
    }
  }

  // ---- The full book ----

  function MaxPrice(levels: seq<Level>): (r: real)
    ensures r >= 0.0
    ensures forall i :: 0 <= i < |levels| ==> levels[i].price.value <= r
  {
    if levels == [] then 0.0
    else
      var rest := MaxPrice(levels[1..]);
      assert forall i :: 0 < i < |levels| ==> levels[i] == levels[1..][i - 1];
      if levels[0].price.value > rest then levels[0].price.value else rest
  }

  function MaxBid(es: seq<DepthEvent>): (r: real)
    ensures r >= 0.0
    ensures forall m, i :: 0 <= m < |es| && 0 <= i < |es[m].bids| ==> es[m].bids[i].price.value <= r
  {
    if es == [] then 0.0
    else
      var rest, here := MaxBid(es[1..]), MaxPrice(es[0].bids);
      assert forall m :: 0 < m < |es| ==> es[m] == es[1..][m - 1];
      if here > rest then here else rest
  }

  /** The decimal digits of a number. */
  function Digits(n: nat): string {
    if n < 10 then [('0' as int + n) as char] else Digits(n / 10) + [('0' as int + n % 10) as char]
  }

  /** A slot that none of the diffs lists: the bid at the whole number behind the highest listed one. */
  function UnlistedSlot(es: seq<DepthEvent>): (slot: Slot)
    ensures slot.side == Bid && slot.price.value > MaxBid(es)
    ensures slot !in ListedSlots(es)
  {
    var n := MaxBid(es).Floor + 1;
    Slot(Bid, Decimal(Digits(n), n as real))
  }

  /** A slot that no diff lists can hold a level when some id is covered by no diff. */
  lemma {:induction false} UnheardOfLevel(ex: seq<Update>, es: seq<DepthEvent>, k: nat) returns (ex': seq<Update>)
    requires ReceivedBy(ex, es, k) && !CoveredBetween(es, 0, k)
    ensures AllFaithful(ex', es) && |ex'| == |ex| && BookAt(ex', k).At(UnlistedSlot(es)).Some?
  {
    var slot := UnlistedSlot(es);
    forall m | 0 <= m < |es| ensures !Lists(es[m], slot) {
      assert Lists(es[m], slot) ==> slot in ListedSlots(es);
    }
    ex' := UncoveredIdCanChange(ex, es, slot, 0, k, None);
  }

  /** When every id is covered, what was said last is the exchange's whole book. */
  lemma {:induction false} SaidIsWholeBook(ex: seq<Update>, es: seq<DepthEvent>, k: nat, slot: Slot)
    requires ReceivedBy(ex, es, k) && CoveredBetween(es, 0, k)
    ensures BookAt(ex, k).At(slot) == LastSaid(es, slot)
  {
    LatestInRange(ex, es, slot);
    if LatestListing(es, slot).Some? {
      LatestIsReached(ex, es, slot, k);
      SaidHolds(ex, es, slot, k);
    } else {
      UnlistedSaysNothing(es, slot);
      forall m | 0 <= m < |es| ensures !Lists(es[m], slot) {
        assert Lists(es[m], slot) ==> slot in ListedSlots(es);
      }
      CoveredUntouched(ex, es, slot, 0, k);
      UntouchedKeeps(ex, 0, k, slot);
    }
  }

  /** The book holds everywhere what the accepted diffs said last. */
  ghost predicate HoldsAllSaid(es: seq<DepthEvent>, book: DictBook) {
    forall slot :: book.ToBook().At(slot) == LastSaid(es, slot)
  }

  /** The operator is documented to keep a full book, but it never sees a snapshot. After any run its book
      is the full book at an id k, for every exchange consistent with all accepted diffs, exactly when every
      id from 1 to k is covered by one of them and the book holds what they said last, late ones included;
      when an id is missing, some consistent exchange holds a level the operator has never heard of. */
  lemma {:induction false} FlinkBookIsFullIff(ex: seq<Update>, ds: seq<Delivery>, k: nat)
    requires ReceivedBy(ex, AcceptedDiffs(ds), k)
    ensures var es, book := AcceptedDiffs(ds), RunKey(FRESH, ds).state.BookOrEmpty();
            (forall ex' :: AllFaithful(ex', es) && k <= |ex'| ==> book.ToBook() == BookAt(ex', k))
            <==> CoveredBetween(es, 0, k) && HoldsAllSaid(es, book)
  {
    hide AcceptedDiffs, RunKey, Faithful, Effective;
    var es, book := AcceptedDiffs(ds), RunKey(FRESH, ds).state.BookOrEmpty();
    if !CoveredBetween(es, 0, k) {
      var slot := UnlistedSlot(es);
      var ex' := UnheardOfLevel(ex, es, k);
      StoredIsLastSaid(ds, slot);
      EffectiveAccepted(ex, ds, slot);
      UnlistedSaysNothing(Effective(ds), slot);
      assert AllFaithful(ex', es) && k <= |ex'|;
    } else {
      forall ex' | AllFaithful(ex', es) && k <= |ex'|
        ensures book.ToBook() == BookAt(ex', k) <==> HoldsAllSaid(es, book)
      {
        forall slot ensures BookAt(ex', k).At(slot) == LastSaid(es, slot) {
          SaidIsWholeBook(ex', es, k, slot);
        }
        if HoldsAllSaid(es, book) {
          AgreeEverywhere(book.ToBook(), BookAt(ex', k));
        }
      }
    }
  }

  lemma {:induction false} ContiguousCovers(rs: seq<Delivery>, i: nat, j: int)
    requires Contiguous(rs) && i < |rs|
    requires rs[i].msg.diff.first <= j <= rs[|rs| - 1].Id()
    ensures Covered(DiffsOf(rs), j)
  {
    var n := |rs| - 1;
    if n > 0 && j <= rs[n - 1].Id() && i < n {
      assert rs[..n][n - 1] == rs[n - 1];
      ContiguousCovers(rs[..n], i, j);
      var m :| 0 <= m < |DiffsOf(rs[..n])| && DiffsOf(rs[..n])[m].first <= j <= DiffsOf(rs[..n])[m].last;
      assert DiffsOf(rs)[m] == DiffsOf(rs[..n])[m];
    } else {
      assert DiffsOf(rs)[n].first <= j <= DiffsOf(rs)[n].last;
    }
  }

  /** When the accepted diffs are in time and leave no id out between them, the stored book is the full
      book at the stored id, for every consistent exchange, exactly when one of them starts at id 1: the
      operator must have been there from the exchange's first update. */
  lemma {:induction false} FullFromTheFirstUpdate(ex: seq<Update>, ds: seq<Delivery>)
    requires ds != []
    requires Contiguous(Records(None, ds)) && FaithfulAndInTime(ex, Records(None, ds))
    ensures var s, rs, es := RunKey(FRESH, ds).state, Records(None, ds), AcceptedDiffs(ds);
            s.last.Some? && s.last.value >= 0
            && ((forall ex' :: AllFaithful(ex', es) && s.last.value <= |ex'| ==>
                               s.BookOrEmpty().ToBook() == BookAt(ex', s.last.value))
                <==> exists i :: 0 <= i < |rs| && rs[i].msg.diff.first == 1)
  {
    var k := ContiguousFacts(ex, ds);
    FlinkBookIsFullIff(ex, ds, k);
    CoveredFromOne(ex, Records(None, ds), k);
    forall slot ensures RunKey(FRESH, ds).state.BookOrEmpty().ToBook().At(slot) == LastSaid(AcceptedDiffs(ds), slot) {
      StoredIsLastSaid(ds, slot);
    }
  }

  lemma {:induction false} ContiguousFacts(ex: seq<Update>, ds: seq<Delivery>) returns (k: nat)
    requires ds != []
    requires Contiguous(Records(None, ds)) && FaithfulAndInTime(ex, Records(None, ds))
    ensures var rs, es := Records(None, ds), AcceptedDiffs(ds);
            rs != [] && es == DiffsOf(rs) && Effective(ds) == es && k == rs[|rs| - 1].Id() && ReceivedBy(ex, es, k)
            && RunKey(FRESH, ds).state.last == Some(k)
  {
    hide StepKey, Faithful, Contiguous, RunKey;
    FlinkBookIsExactPart(ex, ds);
    EffectiveIsRecords(ds);
    StoredIsAccepted(ds);
    k := RunKey(FRESH, ds).state.last.value;
    StoredIsReceived(ex, ds, k);
  }

  lemma {:induction false} CoveredFromOne(ex: seq<Update>, rs: seq<Delivery>, k: nat)
    requires rs != [] && k == rs[|rs| - 1].Id() && Contiguous(rs) && AllFaithful(ex, DiffsOf(rs))
    ensures CoveredBetween(DiffsOf(rs), 0, k) <==> exists i :: 0 <= i < |rs| && rs[i].msg.diff.first == 1
  {
    var es := DiffsOf(rs);
    if i :| 0 <= i < |rs| && rs[i].msg.diff.first == 1 {
      forall j | 0 < j <= k ensures Covered(es, j) {
        ContiguousCovers(rs, i, j);
      }
    }
    if CoveredBetween(es, 0, k) {
      assert Faithful(ex, es[|es| - 1]);
      assert Covered(es, 1);
      var m :| 0 <= m < |es| && es[m].first <= 1 <= es[m].last;
      assert Faithful(ex, es[m]) && rs[m].msg.diff.first == 1;
    }
  }
}
