/** The local order book (ingest/src/ingest/orderbook.py): a REST snapshot followed by diffs that may
    overlap it, with stale diffs dropped and gaps refused. */
module OrderBooks {
  import opened Wrappers
  import opened Books
  import opened Exchange

  datatype BookState = BookState(last: int, book: Book)

  /** What one diff does: dropped as stale, refused as a gap, or applied. */
  datatype Step = Stale | Gap | Applied(next: BookState)

  function StepOf(s: BookState, e: DepthEvent): Step {
    if e.last <= s.last then Stale
    else if e.first > s.last + 1 then Gap
    else Applied(BookState(e.last, ApplyDiff(s.book, e)))
  }

  /** The state after a list of diffs, and the position of the diff that raised, if one did. */
  datatype RunResult = RunResult(state: BookState, gapAt: Option<nat>)

  function Run(s: BookState, events: seq<DepthEvent>): RunResult {
    if events == [] then RunResult(s, None)
    else
      var n := |events| - 1;
      var before := Run(s, events[..n]);
      if before.gapAt.Some? then before
      else match StepOf(before.state, events[n])
        case Stale => before
        case Gap => RunResult(before.state, Some(n))
        case Applied(next) => RunResult(next, None)
  }

  function StartOf(snapshot: DepthSnapshot): BookState {
    BookState(snapshot.last, SnapshotBook(snapshot))
  }

  /** The diffs of the list that were applied, neither stale nor behind a gap. */
  function AppliedDiffs(s: BookState, events: seq<DepthEvent>): seq<DepthEvent> {
    if events == [] then []
    else
      var n := |events| - 1;
      var before := Run(s, events[..n]);
      AppliedDiffs(s, events[..n])
      + if before.gapAt.None? && StepOf(before.state, events[n]).Applied? then [events[n]] else []
  }

  /** The state is what the snapshot's lists say: its id, and on each side the last quantity listed for each
      price, zero quantities included. */
  ghost predicate Loads(s: BookState, snapshot: DepthSnapshot) {
    && s.last == snapshot.last
    && (forall price :: Lookup(s.book.bids, price) == LastQty(snapshot.bids, price))
    && (forall price :: Lookup(s.book.asks, price) == LastQty(snapshot.asks, price))
  }

  /** A run starts from exactly what the snapshot lists. */
  lemma {:induction false} SnapshotIsLoaded(snapshot: DepthSnapshot)
    ensures Loads(StartOf(snapshot), snapshot)
    ensures Run(StartOf(snapshot), []) == RunResult(StartOf(snapshot), None)
    ensures forall s :: Loads(s, snapshot) ==> s == StartOf(snapshot)
  {
    forall price
      ensures Lookup(DictOf(snapshot.bids), price) == LastQty(snapshot.bids, price)
      ensures Lookup(DictOf(snapshot.asks), price) == LastQty(snapshot.asks, price)
    {
      DictOfAt(snapshot.bids, price);
      DictOfAt(snapshot.asks, price);
    }
    forall s | Loads(s, snapshot) ensures s == StartOf(snapshot) {
      var t := StartOf(snapshot);
      forall slot ensures s.book.At(slot) == t.book.At(slot) {
        assert Lookup(s.book.bids, slot.price) == Lookup(t.book.bids, slot.price);
        assert Lookup(s.book.asks, slot.price) == Lookup(t.book.asks, slot.price);
      }
      AgreeEverywhere(s.book, t.book);
    }
  }

  class OrderBook {
    const symbol: string
    var lastUpdateId: int
    var bids: Levels
    var asks: Levels

    function State(): BookState
      reads this
    {
      BookState(lastUpdateId, Book(bids, asks))
    }

    constructor (symbol: string)
      ensures this.symbol == symbol
      ensures State() == BookState(0, Book(map[], map[]))
    {
      this.symbol := symbol;
      lastUpdateId, bids, asks := 0, map[], map[];
    }

    /** Loads the snapshot and replays the buffer; returns the position of the buffered diff at
        which GapDetectedError is raised, None when it is not. */
    method Initialize(snapshot: DepthSnapshot, buffer: seq<DepthEvent>) returns (raised: Option<nat>)
      modifies this
      ensures forall s :: Loads(s, snapshot) ==> State() == Run(s, buffer).state && raised == Run(s, buffer).gapAt
      ensures State() == Run(StartOf(snapshot), buffer).state
      ensures raised == Run(StartOf(snapshot), buffer).gapAt
      ensures buffer == [] ==> raised.None? && Loads(State(), snapshot)
    {
      SnapshotIsLoaded(snapshot);
      hide Loads;
      lastUpdateId := snapshot.last;
      bids := DictOf(snapshot.bids);
      asks := DictOf(snapshot.asks);
      for i := 0 to |buffer|
        invariant Run(StartOf(snapshot), buffer[..i]) == RunResult(State(), None)
      {
        var event := buffer[i];
        assert buffer[..i + 1][..i] == buffer[..i];
        if event.last <= lastUpdateId {
          continue;
        }
        if event.first > lastUpdateId + 1 {
          RunStopsAtGap(StartOf(snapshot), buffer, i);
          return Some(i);
        }
        ApplyEvent(event);
      }
      assert buffer[..|buffer|] == buffer;
      return None;
    }

    /** Applies one diff; raised tells that GapDetectedError was raised. */
    method Apply(event: DepthEvent) returns (raised: bool)
      modifies this
      ensures raised <==> StepOf(old(State()), event).Gap?
      ensures State() == match StepOf(old(State()), event) case Applied(next) => next case _ => old(State())
    {
      if event.last <= lastUpdateId {
        return false;
      }
      if event.first > lastUpdateId + 1 {
        return true;
      }
      ApplyEvent(event);
      return false;
    }

    /** _apply: one pass over each side of the diff, in list order. */
    method ApplyEvent(event: DepthEvent)
      modifies this
      ensures State() == BookState(event.last, ApplyDiff(old(State()).book, event))
    {
      for i := 0 to |event.bids|
        invariant bids == ApplyLevels(old(bids), event.bids[..i]) && asks == old(asks)
      {
        var level := event.bids[i];
        assert event.bids[..i + 1][..i] == event.bids[..i];
        if level.qty.value == 0.0 {
          bids := bids - {level.price};
        } else {
          bids := bids[level.price := level.qty];
        }
      }
      assert event.bids[..|event.bids|] == event.bids;
      for i := 0 to |event.asks|
        invariant bids == ApplyLevels(old(bids), event.bids)
        invariant asks == ApplyLevels(old(asks), event.asks[..i])
      {
        var level := event.asks[i];
        assert event.asks[..i + 1][..i] == event.asks[..i];
        if level.qty.value == 0.0 {
          asks := asks - {level.price};
        } else {
          asks := asks[level.price := level.qty];
        }
      }
      assert event.asks[..|event.asks|] == event.asks;
      lastUpdateId := event.last;
    }
  }

  /** Once a gap is raised nothing later is looked at. */
  lemma {:induction false} RunStopsAtGap(s: BookState, events: seq<DepthEvent>, i: nat)
    requires i < |events|
    requires Run(s, events[..i]).gapAt.None?
    requires StepOf(Run(s, events[..i]).state, events[i]).Gap?
    ensures Run(s, events) == RunResult(Run(s, events[..i]).state, Some(i))
  {
    var n := |events| - 1;
    if i == n {
    } else {
      assert events[..n][..i] == events[..i];
      RunStopsAtGap(s, events[..n], i);
    }
  }

  /** A run over a + b is the run over a followed, if it did not raise, by the run over b: so a
      snapshot that arrives early or late gives the same book, and the same diff raises. Taking
      b one diff at a time, this says that Initialize on a + b equals Initialize on a followed by
      Apply on each diff of b. */
  lemma {:induction false} SnapshotTimingDoesNotMatter(s: BookState, a: seq<DepthEvent>, b: seq<DepthEvent>)
    ensures Run(s, a).gapAt.Some? ==> Run(s, a + b) == Run(s, a)
    ensures Run(s, a).gapAt.None? ==>
              var rest := Run(Run(s, a).state, b);
              Run(s, a + b) == RunResult(rest.state,
                                         if rest.gapAt.None? then None else Some(|a| + rest.gapAt.value))
  {
    if b == [] {
      assert a + b == a;
    } else {
      var n := |b| - 1;
      assert (a + b)[..|a| + n] == a + b[..n];
      assert (a + b)[|a| + n] == b[n];
      SnapshotTimingDoesNotMatter(s, a, b[..n]);
    }
  }

  // ---- Refinement of the exchange ----

  lemma {:induction false} AppliedDiffsStep(s: BookState, events: seq<DepthEvent>)
    requires events != []
    ensures var n := |events| - 1;
            var before := Run(s, events[..n]);
            ListedSlots(AppliedDiffs(s, events))
            == ListedSlots(AppliedDiffs(s, events[..n]))
               + if before.gapAt.None? && StepOf(before.state, events[n]).Applied?
                 then iset slot | Lists(events[n], slot) else iset{}
  {
    var n := |events| - 1;
    var front := AppliedDiffs(s, events[..n]);
    ListedSlotsAppend(front, events[n]);
    assert front + [] == front;
  }

  /** The local book refines the exchange. If the snapshot agrees with the exchange's book on a set
      of slots and every diff is faithful, then at every moment, a raised gap included, the local
      book agrees with the exchange's book at lastUpdateId on those slots and on every slot an
      applied diff lists, however the diffs overlap the snapshot or each other. */
  lemma {:induction false} LocalBookRefinesExchange(
    ex: seq<Update>, s: BookState, events: seq<DepthEvent>, slots: iset<Slot>)
    requires 0 <= s.last <= |ex|
    requires AgreesOn(s.book, BookAt(ex, s.last), slots)
    requires forall e :: e in events ==> Faithful(ex, e)
    ensures var t := Run(s, events).state;
            s.last <= t.last <= |ex|
            && AgreesOn(t.book, BookAt(ex, t.last), slots + ListedSlots(AppliedDiffs(s, events)))
  {
    if events != [] {
      var n := |events| - 1;
      var front, e := events[..n], events[n];
      assert e in events && forall d :: d in front ==> d in events;
      LocalBookRefinesExchange(ex, s, front, slots);
      AppliedDiffsStep(s, events);
      var before := Run(s, front);
      if before.gapAt.None? && StepOf(before.state, e).Applied? {
        FaithfulDiffOverlap(ex, before.state.book, before.state.last, e,
                            slots + ListedSlots(AppliedDiffs(s, front)));
      }
    } else {
      assert ListedSlots(AppliedDiffs(s, events)) == iset{};
    }
  }

  lemma {:induction false} UnlistedKeepsStart(s: BookState, events: seq<DepthEvent>, slot: Slot)
    requires slot !in ListedSlots(AppliedDiffs(s, events))
    ensures Run(s, events).state.book.At(slot) == s.book.At(slot)
  {
    if events != [] {
      var n := |events| - 1;
      AppliedDiffsStep(s, events);
      UnlistedKeepsStart(s, events[..n], slot);
      var before := Run(s, events[..n]);
      ApplyDiffAt(before.state.book, before.state.book, events[n], slot);
    }
  }

  /** A slot no applied diff lists holds the last quantity the snapshot lists for it on its side. */
  lemma {:induction false} UnlistedKeepsSnapshot(s: BookState, snapshot: DepthSnapshot, events: seq<DepthEvent>,
                                                 slot: Slot)
    requires Loads(s, snapshot) && slot !in ListedSlots(AppliedDiffs(s, events))
    ensures Run(s, events).state.book.At(slot)
            == LastQty(if slot.side == Bid then snapshot.bids else snapshot.asks, slot.price)
  {
    UnlistedKeepsStart(s, events, slot);
    SnapshotIsLoaded(snapshot);
  }

  ghost predicate FullSnapshot(ex: seq<Update>, snapshot: DepthSnapshot) {
    0 <= snapshot.last <= |ex| && SnapshotBook(snapshot) == BookAt(ex, snapshot.last)
  }

  /** Two sessions on one faithful stream with different full snapshots hold the same book whenever
      they have reached the same id, and it is the exchange's book. */
  lemma {:induction false} SameIdSameBook(ex: seq<Update>,
                       snap1: DepthSnapshot, events1: seq<DepthEvent>,
                       snap2: DepthSnapshot, events2: seq<DepthEvent>)
    requires FullSnapshot(ex, snap1) && FullSnapshot(ex, snap2)
    requires forall e :: e in events1 || e in events2 ==> Faithful(ex, e)
    requires Run(StartOf(snap1), events1).state.last == Run(StartOf(snap2), events2).state.last
    ensures Run(StartOf(snap1), events1).state == Run(StartOf(snap2), events2).state
    ensures var t := Run(StartOf(snap1), events1).state;
            0 <= t.last <= |ex| && t.book == BookAt(ex, t.last)
  {
    var everything := iset slot: Slot | slot.side == Bid || slot.side == Ask;
    LocalBookRefinesExchange(ex, StartOf(snap1), events1, everything);
    LocalBookRefinesExchange(ex, StartOf(snap2), events2, everything);
    var t1, t2 := Run(StartOf(snap1), events1).state, Run(StartOf(snap2), events2).state;
    AgreeEverywhere(t1.book, BookAt(ex, t1.last));
    AgreeEverywhere(t2.book, BookAt(ex, t2.last));
  }

  // ---- The snapshot cut to its best levels ----

  /** m holds the best levels of full, at most limit of them: a level is missing only when the limit
      is used up and every listed price is at least as good. */
  ghost predicate CutOf(side: Side, m: Levels, full: Levels, limit: nat) {
    && |m| <= limit
    && (forall p :: p in m ==> p in full && m[p] == full[p])
    && (forall p, q :: p in full && p !in m && q in m ==> !Better(side, p, q))
    && (m != full ==> |m| == limit)
  }

  /** The slots a cut snapshot is right about: everything on a side that was not cut, otherwise the
      listed prices and every price better than some listed one. */
  ghost function CutSlots(book: Book, limit: nat): iset<Slot> {
    iset slot: Slot |
      var m := book.SideOf(slot.side);
      |m| < limit || slot.price in m || exists q :: q in m && Better(slot.side, slot.price, q)
  }

  lemma {:induction false} CutSnapshotAgrees(book: Book, full: Book, limit: nat)
    requires CutOf(Bid, book.bids, full.bids, limit) && CutOf(Ask, book.asks, full.asks, limit)
    ensures AgreesOn(book, full, CutSlots(book, limit))
  {
  }

  ghost predicate CutSnapshot(ex: seq<Update>, snapshot: DepthSnapshot, limit: nat) {
    var book := SnapshotBook(snapshot);
    && 0 <= snapshot.last <= |ex|
    && CutOf(Bid, book.bids, BookAt(ex, snapshot.last).bids, limit)
    && CutOf(Ask, book.asks, BookAt(ex, snapshot.last).asks, limit)
  }

  /** With a cut snapshot the local book is an exact part of the exchange's book: on the slots the
      snapshot was right about and those an applied diff lists it is the exchange's book, and it
      holds nothing anywhere else. */
  lemma {:induction false} CutSessionIsExactPart(ex: seq<Update>, snapshot: DepthSnapshot, limit: nat,
                                                 events: seq<DepthEvent>, slot: Slot)
    requires CutSnapshot(ex, snapshot, limit)
    requires forall e :: e in events ==> Faithful(ex, e)
    ensures var s, cut := StartOf(snapshot), CutSlots(SnapshotBook(snapshot), limit);
            var t := Run(s, events).state;
            0 <= t.last <= |ex|
            && t.book.At(slot) == if slot in cut + ListedSlots(AppliedDiffs(s, events))
                                  then BookAt(ex, t.last).At(slot) else None
  {
    var s, cut := StartOf(snapshot), CutSlots(SnapshotBook(snapshot), limit);
    var full := BookAt(ex, snapshot.last);
    CutSnapshotAgrees(s.book, full, limit);
    LocalBookRefinesExchange(ex, s, events, cut);
    if slot !in ListedSlots(AppliedDiffs(s, events)) {
      UnlistedKeepsStart(s, events, slot);
    }
  }

  /** A best level of a side: no other level is better. */
  ghost predicate IsBest(side: Side, m: Levels, price: Decimal) {
    price in m && forall p :: p in m ==> !Better(side, p, price)
  }

  /** When the local best quote is the exchange's. A best level of the exchange is one of the local book
      exactly when its slot is known, from the cut snapshot or an applied diff; and the local best levels
      are the exchange's exactly when one of the exchange's best slots is known. */
  lemma {:induction false} LocalBestIff(ex: seq<Update>, snapshot: DepthSnapshot, limit: nat,
                                        events: seq<DepthEvent>, side: Side)
    requires CutSnapshot(ex, snapshot, limit)
    requires forall e :: e in events ==> Faithful(ex, e)
    ensures var s, t := StartOf(snapshot), Run(StartOf(snapshot), events).state;
            var known := CutSlots(SnapshotBook(snapshot), limit) + ListedSlots(AppliedDiffs(s, events));
            0 <= t.last <= |ex|
            && var local, full := t.book.SideOf(side), BookAt(ex, t.last).SideOf(side);
            (forall p :: IsBest(side, full, p) ==> (IsBest(side, local, p) <==> Slot(side, p) in known))
            && (forall b :: IsBest(side, local, b) ==>
                  (IsBest(side, full, b) <==> exists p :: IsBest(side, full, p) && Slot(side, p) in known))
  {
    var s, t := StartOf(snapshot), Run(StartOf(snapshot), events).state;
    var known := CutSlots(SnapshotBook(snapshot), limit) + ListedSlots(AppliedDiffs(s, events));
    CutSessionIsExactPart(ex, snapshot, limit, events, Slot(side, Decimal("0", 0.0)));
    var local, full := t.book.SideOf(side), BookAt(ex, t.last).SideOf(side);
    forall p ensures p in local <==> p in full && Slot(side, p) in known {
      CutSessionIsExactPart(ex, snapshot, limit, events, Slot(side, p));
      assert t.book.At(Slot(side, p)) == Lookup(local, p) && BookAt(ex, t.last).At(Slot(side, p)) == Lookup(full, p);
    }
    BestOfPart(side, local, full, known);
  }

  lemma {:induction false} BestOfPart(side: Side, local: Levels, full: Levels, known: iset<Slot>)
    requires forall p :: p in local <==> p in full && Slot(side, p) in known
    ensures forall p :: IsBest(side, full, p) ==> (IsBest(side, local, p) <==> Slot(side, p) in known)
    ensures forall b :: IsBest(side, local, b) ==>
              (IsBest(side, full, b) <==> exists p :: IsBest(side, full, p) && Slot(side, p) in known)
  {
  }

  // ---- Gap detection ----

  /** Some diff of the list covers this update id. */
  ghost predicate Covered(events: seq<DepthEvent>, id: int) {
    exists i :: 0 <= i < |events| && events[i].first <= id <= events[i].last
  }

  lemma {:induction false} CoveredAppend(events: seq<DepthEvent>, e: DepthEvent, id: int)
    ensures Covered(events + [e], id) <==> Covered(events, id) || e.first <= id <= e.last
  {
    var all := events + [e];
    if Covered(events, id) {
      var i :| 0 <= i < |events| && events[i].first <= id <= events[i].last;
      assert all[i] == events[i];
    }
    if e.first <= id <= e.last {
      assert all[|events|] == e;
    }
  }

  /** The largest update id among the start id and the diffs' last ids. */
  function HighestId(start: int, events: seq<DepthEvent>): int {
    if events == [] then start
    else Max(HighestId(start, events[..|events| - 1]), events[|events| - 1].last)
  }

  lemma {:induction false} NothingCoversBeyondHighest(start: int, events: seq<DepthEvent>, id: int)
    requires id > HighestId(start, events)
    ensures id > start && !Covered(events, id)
  {
    if events != [] {
      var n := |events| - 1;
      NothingCoversBeyondHighest(start, events[..n], id);
      CoveredAppend(events[..n], events[n], id);
      assert events == events[..n] + [events[n]];
    }
  }

  /** Until a gap is raised the book is at the highest id it has been told of. */
  lemma {:induction false} LastIsHighest(s: BookState, events: seq<DepthEvent>)
    requires Run(s, events).gapAt.None?
    ensures Run(s, events).state.last == HighestId(s.last, events)
  {
    if events != [] {
      LastIsHighest(s, events[..|events| - 1]);
    }
  }

  /** No update is skipped: every id after the snapshot up to lastUpdateId lies in the range of a
      diff that was applied. */
  lemma {:induction false} NothingSkipped(s: BookState, events: seq<DepthEvent>, id: int)
    requires s.last < id <= Run(s, events).state.last
    ensures Covered(AppliedDiffs(s, events), id)
  {
    var n := |events| - 1;
    var before := Run(s, events[..n]);
    if id <= before.state.last {
      NothingSkipped(s, events[..n], id);
    }
    var front := AppliedDiffs(s, events[..n]);
    CoveredAppend(front, events[n], id);
    assert front + [] == front;
  }

  /** The diff at position i is newer than everything before it, while the id right after the highest
      one so far is covered by no diff received so far, that one included. */
  ghost predicate GapAt(start: int, events: seq<DepthEvent>, i: nat)
    requires i < |events|
  {
    var highest := HighestId(start, events[..i]);
    events[i].last > highest && !Covered(events[..i + 1], highest + 1)
  }

  /** GapDetectedError is raised at exactly the first diff that is newer while the next update id is
      missing from everything received. */
  lemma {:induction false} GapDetectionIsExact(s: BookState, events: seq<DepthEvent>)
    ensures Run(s, events).gapAt.None? <==> forall i :: 0 <= i < |events| ==> !GapAt(s.last, events, i)
    ensures Run(s, events).gapAt.Some? ==>
              var k := Run(s, events).gapAt.value;
              k < |events| && GapAt(s.last, events, k) && forall i :: 0 <= i < k ==> !GapAt(s.last, events, i)
  {
    if events != [] {
      var n := |events| - 1;
      var front, e := events[..n], events[n];
      GapDetectionIsExact(s, front);
      forall i | 0 <= i < n ensures GapAt(s.last, front, i) <==> GapAt(s.last, events, i) {
        assert front[..i] == events[..i] && front[..i + 1] == events[..i + 1];
      }
      if Run(s, front).gapAt.None? {
        LastIsHighest(s, front);
        var highest := HighestId(s.last, front);
        NothingCoversBeyondHighest(s.last, front, highest + 1);
        assert events[..n + 1] == front + [e];
        CoveredAppend(front, e, highest + 1);
        assert GapAt(s.last, events, n) <==> StepOf(Run(s, front).state, e).Gap?;
      }
    }
  }

  /** A stream that loses nothing: each diff starts where the one before ended. */
  ghost predicate Lossless(events: seq<DepthEvent>) {
    && (forall i :: 0 <= i < |events| ==> events[i].first <= events[i].last)
    && (forall i :: 0 < i < |events| ==> events[i].first == events[i - 1].last + 1)
  }

  /** No false alarms: on a stream that loses nothing a gap is raised exactly when the first diff starts
      behind the snapshot's next id, that is when the snapshot is too old for the stream, and then at the
      first diff. Otherwise the book ends at the later of the snapshot's id and the stream's. */
  lemma {:induction false} LosslessStreamGapsIff(s: BookState, events: seq<DepthEvent>)
    requires Lossless(events) && events != []
    ensures Run(s, events).gapAt == if events[0].first > s.last + 1 then Some(0) else None
    ensures events[0].first <= s.last + 1 ==> Run(s, events).state.last == Max(s.last, events[|events| - 1].last)
  {
    var n := |events| - 1;
    if n == 0 {
      assert events[..0] == [];
    } else {
      LosslessStreamGapsIff(s, events[..n]);
    }
  }
}
