/** The order book helpers of the Flink jobs (flink/jobs/flink_lib/logic.py): applying a diff to a
    pair of dictionaries, best prices, spread, mid price and top-N imbalance. */
module Logic {
  import opened Wrappers
  import opened Books

  /** A Python dict from price to quantity, in insertion order. */
  type Dict = seq<Level>

  ghost predicate Distinct(d: Dict) {
    forall i, j :: 0 <= i < j < |d| ==> d[i].price != d[j].price
  }

  /** d[price] = qty: an existing key keeps its place, a new one goes to the end. */
  function Put(d: Dict, level: Level): Dict {
    if d == [] then [level]
    else if d[0].price == level.price then [level] + d[1..]
    else [d[0]] + Put(d[1..], level)
  }

  /** d.pop(price, None) */
  function Pop(d: Dict, price: Decimal): Dict {
    if d == [] then []
    else if d[0].price == price then d[1..]
    else [d[0]] + Pop(d[1..], price)
  }

  function PutOrPop(d: Dict, level: Level): Dict {
    if level.qty.value == 0.0 then Pop(d, level.price) else Put(d, level)
  }

  function ApplyDict(d: Dict, levels: seq<Level>): Dict {
    if levels == [] then d
    else PutOrPop(ApplyDict(d, levels[..|levels| - 1]), levels[|levels| - 1])
  }

  /** What the dict maps, without its order. */
  function ToMap(d: Dict): Levels {
    if d == [] then map[] else ToMap(d[1..])[d[0].price := d[0].qty]
  }

  datatype DictBook = DictBook(bids: Dict, asks: Dict) {
    function ToBook(): Book {
      Book(ToMap(bids), ToMap(asks))
    }

    function SideOf(side: Side): Dict {
      if side == Bid then bids else asks
    }

    ghost predicate Valid() {
      Distinct(bids) && Distinct(asks)
    }
  }

  class DepthBook {
    var bids: Dict
    var asks: Dict

    constructor (book: DictBook)
      ensures bids == book.bids && asks == book.asks
    {
      bids, asks := book.bids, book.asks;
    }

    /** apply_depth_diff: upserts and deletions in list order, bids first. */
    method ApplyDepthDiff(bidUpdates: seq<Level>, askUpdates: seq<Level>)
      modifies this
      ensures bids == ApplyDict(old(bids), bidUpdates)
      ensures asks == ApplyDict(old(asks), askUpdates)
    {
      for i := 0 to |bidUpdates|
        invariant bids == ApplyDict(old(bids), bidUpdates[..i]) && asks == old(asks)
      {
        var level := bidUpdates[i];
        assert bidUpdates[..i + 1][..i] == bidUpdates[..i];
        if level.qty.value == 0.0 {
          bids := Pop(bids, level.price);
        } else {
          bids := Put(bids, level);
        }
      }
      assert bidUpdates[..|bidUpdates|] == bidUpdates;
      for i := 0 to |askUpdates|
        invariant bids == ApplyDict(old(bids), bidUpdates)
        invariant asks == ApplyDict(old(asks), askUpdates[..i])
      {
        var level := askUpdates[i];
        assert askUpdates[..i + 1][..i] == askUpdates[..i];
        if level.qty.value == 0.0 {
          asks := Pop(asks, level.price);
        } else {
          asks := Put(asks, level);
        }
      }
      assert askUpdates[..|askUpdates|] == askUpdates;
    }
  }

  datatype Quote = Quote(price: real, qty: real)

  /** max(d, key=float) on bids, min(d, key=float) on asks: the first of the best levels. */
  function BestOf(side: Side, d: Dict): (best: Level)
    requires d != []
    ensures best in d
    ensures forall i :: 0 <= i < |d| ==> !Better(side, d[i].price, best.price)
  {
    var n := |d| - 1;
    if n == 0 then d[0]
    else
      var best := BestOf(side, d[..n]);
      assert forall i :: 0 <= i < n ==> d[i] == d[..n][i];
      if Better(side, d[n].price, best.price) then d[n] else best
  }

  function BestQuote(side: Side, d: Dict): Option<Quote> {
    if d == [] then None
    else
      var best := BestOf(side, d);
      Some(Quote(best.price.value, best.qty.value))
  }

  function Spread(bid: real, ask: real): real {
    ask - bid
  }

  function MidPrice(bid: real, ask: real): real {
    (bid + ask) / 2.0
  }

  /** Stable insertion: behind every level that is not worse. */
  function Insert(side: Side, s: seq<Level>, x: Level): seq<Level> {
    if s == [] || Better(side, x.price, s[0].price) then [x] + s
    else [s[0]] + Insert(side, s[1..], x)
  }

  /** sorted(d.items(), key=float of the price), best price first, stable. */
  function Sort(side: Side, d: Dict): seq<Level> {
    if d == [] then [] else Insert(side, Sort(side, d[..|d| - 1]), d[|d| - 1])
  }

  function Take(s: seq<Level>, depth: nat): seq<Level> {
    if |s| <= depth then s else s[..depth]
  }

  function Volume(s: seq<Level>): real {
    if s == [] then 0.0 else Volume(s[..|s| - 1]) + s[|s| - 1].qty.value
  }

  const DEFAULT_DEPTH: nat := 5

  function Imbalance(bids: Dict, asks: Dict, depth: nat): real {
    var bidVolume := Volume(Take(Sort(Bid, bids), depth));
    var askVolume := Volume(Take(Sort(Ask, asks), depth));
    var total := bidVolume + askVolume;
    if total > 0.0 then bidVolume / total else 0.5
  }

  // ---- A dict with its order forgotten is the book side of the protocol ----

  lemma {:induction false} ToMapHas(d: Dict, price: Decimal)
    ensures price in ToMap(d) <==> exists i :: 0 <= i < |d| && d[i].price == price
    ensures price in ToMap(d) ==> Level(price, ToMap(d)[price]) in d
  {
    if d != [] {
      ToMapHas(d[1..], price);
    }
  }

  lemma {:induction false} DistinctTail(d: Dict)
    requires Distinct(d) && d != []
    ensures Distinct(d[1..]) && d[0].price !in ToMap(d[1..])
  {
    ToMapHas(d[1..], d[0].price);
  }

  lemma {:induction false} DistinctCons(head: Level, tail: Dict)
    requires Distinct(tail) && head.price !in ToMap(tail)
    ensures Distinct([head] + tail)
  {
    forall i | 0 <= i < |tail| ensures tail[i].price != head.price {
      ToMapHas(tail, tail[i].price);
    }
  }

  lemma {:induction false} PutIsUpdate(d: Dict, level: Level)
    requires Distinct(d)
    ensures Distinct(Put(d, level))
    ensures ToMap(Put(d, level)) == ToMap(d)[level.price := level.qty]
  {
    if d == [] {
    } else {
      DistinctTail(d);
      if d[0].price == level.price {
        DistinctCons(level, d[1..]);
        assert ([level] + d[1..])[1..] == d[1..];
      } else {
        PutIsUpdate(d[1..], level);
        DistinctCons(d[0], Put(d[1..], level));
        assert ([d[0]] + Put(d[1..], level))[1..] == Put(d[1..], level);
      }
    }
  }

  /** Assigning to a key keeps every key in its place and puts a new one at the end. */
  lemma {:induction false} PutKeepsPlaces(d: Dict, level: Level)
    ensures |d| <= |Put(d, level)| <= |d| + 1
    ensures forall i :: 0 <= i < |d| ==> Put(d, level)[i].price == d[i].price
    ensures |Put(d, level)| == |d| + 1 ==> Put(d, level) == d + [level]
  {
    if d != [] && d[0].price != level.price {
      PutKeepsPlaces(d[1..], level);
      assert d == [d[0]] + d[1..];
    }
  }

  /** Popping a key removes the first level with that price and keeps the order of the others. */
  lemma {:induction false} PopClosesGap(d: Dict, i: nat)
    requires i < |d| && forall j :: 0 <= j < i ==> d[j].price != d[i].price
    ensures Pop(d, d[i].price) == d[..i] + d[i + 1..]
  {
    if i > 0 {
      assert d[1..][i - 1] == d[i];
      PopClosesGap(d[1..], i - 1);
      assert d[..i] == [d[0]] + d[1..][..i - 1];
    }
  }

  lemma {:induction false} PopIsRemoval(d: Dict, price: Decimal)
    requires Distinct(d)
    ensures Distinct(Pop(d, price))
    ensures ToMap(Pop(d, price)) == ToMap(d) - {price}
  {
    if d == [] {
    } else {
      DistinctTail(d);
      if d[0].price != price {
        PopIsRemoval(d[1..], price);
        DistinctCons(d[0], Pop(d[1..], price));
        assert ([d[0]] + Pop(d[1..], price))[1..] == Pop(d[1..], price);
      }
    }
  }

  /** Both implementations of the diff agree: the ordered dict of the Flink job and the book side of
      the ingest service change in the same way. */
  lemma {:induction false} ApplyDictRefines(d: Dict, levels: seq<Level>)
    requires Distinct(d)
    ensures Distinct(ApplyDict(d, levels))
    ensures ToMap(ApplyDict(d, levels)) == ApplyLevels(ToMap(d), levels)
  {
    if levels != [] {
      var n := |levels| - 1;
      ApplyDictRefines(d, levels[..n]);
      PutIsUpdate(ApplyDict(d, levels[..n]), levels[n]);
      PopIsRemoval(ApplyDict(d, levels[..n]), levels[n].price);
    }
  }

  // ---- Sorting ----

  ghost predicate SortedBy(side: Side, s: seq<Level>) {
    forall i, j :: 0 <= i < j < |s| ==> !Better(side, s[j].price, s[i].price)
  }

  /** No two levels have the same number as their price. */
  ghost predicate NumericallyDistinct(d: Dict) {
    forall i, j :: 0 <= i < j < |d| ==> d[i].price.value != d[j].price.value
  }

  lemma {:induction false} InsertMultiset(side: Side, s: seq<Level>, x: Level)
    ensures multiset(Insert(side, s, x)) == multiset(s) + multiset{x}
  {
    if s != [] {
      InsertMultiset(side, s[1..], x);
      assert s == [s[0]] + s[1..];
    }
  }

  lemma {:induction false} InsertSorted(side: Side, s: seq<Level>, x: Level)
    requires SortedBy(side, s)
    ensures SortedBy(side, Insert(side, s, x))
  {
    if s == [] || Better(side, x.price, s[0].price) {
    } else {
      var rest := Insert(side, s[1..], x);
      InsertSorted(side, s[1..], x);
      InsertMultiset(side, s[1..], x);
      forall j | 0 <= j < |rest| ensures !Better(side, rest[j].price, s[0].price) {
        assert rest[j] in multiset(rest);
        assert rest[j] == x || rest[j] in s[1..];
      }
    }
  }

  lemma {:induction false} SortIsSorted(side: Side, d: Dict)
    ensures SortedBy(side, Sort(side, d))
    ensures multiset(Sort(side, d)) == multiset(d)
    ensures |Sort(side, d)| == |d|
  {
    if d != [] {
      var n := |d| - 1;
      SortIsSorted(side, d[..n]);
      InsertSorted(side, Sort(side, d[..n]), d[n]);
      InsertMultiset(side, Sort(side, d[..n]), d[n]);
      assert d == d[..n] + [d[n]];
      assert |multiset(Sort(side, d))| == |multiset(d)|;
    }
  }

  /** The best bid and ask are the heads of the sorted lists. */
  lemma {:induction false} BestIsHeadOfSorted(side: Side, d: Dict)
    requires d != []
    ensures Sort(side, d) != [] && BestOf(side, d) == Sort(side, d)[0]
  {
    var n := |d| - 1;
    if n > 0 {
      BestIsHeadOfSorted(side, d[..n]);
    } else {
      assert d[..n] == [];
    }
  }

  lemma {:induction false} DistinctByMultiset(a: seq<Level>, b: seq<Level>)
    requires NumericallyDistinct(a) && multiset(a) == multiset(b)
    ensures NumericallyDistinct(b)
  {
    forall i, j | 0 <= i < j < |b| ensures b[i].price.value != b[j].price.value {
      assert b[i] in multiset(b) && b[j] in multiset(b);
      assert b[i] in a && b[j] in a;
      if b[i] == b[j] {
        TwiceInMultiset(b, i, j);
        var k :| 0 <= k < |a| && a[k] == b[i];
        OnceInMultiset(a, k);
      }
    }
  }

  lemma {:induction false} TwiceInMultiset(s: seq<Level>, i: nat, j: nat)
    requires i < j < |s| && s[i] == s[j]
    ensures multiset(s)[s[i]] >= 2
  {
    assert s == s[..j] + [s[j]] + s[j + 1..];
    assert s[i] in s[..j];
  }

  lemma {:induction false} OnceInMultiset(s: seq<Level>, k: nat)
    requires NumericallyDistinct(s) && k < |s|
    ensures multiset(s)[s[k]] == 1
  {
    assert s == s[..k] + [s[k]] + s[k + 1..];
    assert s[k] !in s[..k] && s[k] !in s[k + 1..];
  }

  /** The head of a sorted list is a best element, and numerically distinct levels have only one. */
  lemma {:induction false} SortedHead(side: Side, a: seq<Level>, b: seq<Level>)
    requires SortedBy(side, a) && SortedBy(side, b)
    requires NumericallyDistinct(a)
    requires a != [] && b != [] && a[0] in b && b[0] in a
    ensures a[0] == b[0]
  {
  }

  lemma {:induction false} TailMultiset(a: seq<Level>)
    requires a != []
    ensures multiset(a[1..]) == multiset(a) - multiset{a[0]}
  {
    assert a == [a[0]] + a[1..];
  }

  /** Numerically distinct levels can be sorted in one way only. */
  lemma {:induction false} SortedUnique(side: Side, a: seq<Level>, b: seq<Level>)
    requires SortedBy(side, a) && SortedBy(side, b)
    requires NumericallyDistinct(a)
    requires multiset(a) == multiset(b)
    ensures a == b
  {
    assert |multiset(a)| == |multiset(b)|;
    if a != [] {
      assert a[0] in multiset(b) && b[0] in multiset(a);
      SortedHead(side, a, b);
      TailMultiset(a);
      TailMultiset(b);
      SortedUnique(side, a[1..], b[1..]);
      assert a == [a[0]] + a[1..] && b == [b[0]] + b[1..];
    }
  }

  lemma {:induction false} SortByMultiset(side: Side, c: Dict, d: Dict)
    requires NumericallyDistinct(c) && multiset(c) == multiset(d)
    ensures Sort(side, c) == Sort(side, d)
  {
    SortIsSorted(side, c);
    SortIsSorted(side, d);
    DistinctByMultiset(c, Sort(side, c));
    SortedUnique(side, Sort(side, c), Sort(side, d));
  }

  lemma {:induction false} DictMultiset(d: Dict, x: Level)
    requires Distinct(d)
    ensures multiset(d)[x] == if Lookup(ToMap(d), x.price) == Some(x.qty) then 1 else 0
  {
    if d != [] {
      DistinctTail(d);
      DictMultiset(d[1..], x);
      assert d == [d[0]] + d[1..];
      assert x == d[0] <==> x.price == d[0].price && x.qty == d[0].qty;
    }
  }

  /** Insertion order is invisible: dicts with the same content and numerically distinct prices sort
      to the same list, so best quotes and imbalance are the same. */
  lemma {:induction false} InsertionOrderInvisible(bids: Dict, asks: Dict, bids': Dict, asks': Dict, depth: nat)
    requires NumericallyDistinct(bids) && NumericallyDistinct(asks) && Distinct(bids') && Distinct(asks')
    requires ToMap(bids) == ToMap(bids') && ToMap(asks) == ToMap(asks')
    ensures Imbalance(bids, asks, depth) == Imbalance(bids', asks', depth)
    ensures BestQuote(Bid, bids) == BestQuote(Bid, bids') && BestQuote(Ask, asks) == BestQuote(Ask, asks')
  {
    SameMapSameSort(Bid, bids, bids');
    SameMapSameSort(Ask, asks, asks');
  }

  lemma {:induction false} SameMapSameSort(side: Side, c: Dict, d: Dict)
    requires NumericallyDistinct(c) && Distinct(d)
    requires ToMap(c) == ToMap(d)
    ensures Sort(side, c) == Sort(side, d)
    ensures BestQuote(side, c) == BestQuote(side, d)
  {
    forall x: Level ensures multiset(c)[x] == multiset(d)[x] {
      DictMultiset(c, x);
      DictMultiset(d, x);
    }
    assert multiset(c) == multiset(d);
    assert |multiset(c)| == |multiset(d)|;
    SortByMultiset(side, c, d);
    if c != [] {
      BestIsHeadOfSorted(side, c);
      BestIsHeadOfSorted(side, d);
    }
  }

  // ---- Imbalance ----

  ghost predicate NonNegative(d: seq<Level>) {
    forall i :: 0 <= i < |d| ==> d[i].qty.value >= 0.0
  }

  lemma {:induction false} VolumeNonNegative(s: seq<Level>)
    requires NonNegative(s)
    ensures Volume(s) >= 0.0
  {
    if s != [] {
      VolumeNonNegative(s[..|s| - 1]);
    }
  }

  lemma {:induction false} TopVolumeNonNegative(side: Side, d: Dict, depth: nat)
    requires NonNegative(d)
    ensures Volume(Take(Sort(side, d), depth)) >= 0.0
  {
    var s := Sort(side, d);
    SortIsSorted(side, d);
    forall i | 0 <= i < |s| ensures s[i].qty.value >= 0.0 {
      assert s[i] in multiset(s);
      assert s[i] in d;
    }
    VolumeNonNegative(Take(s, depth));
  }

  lemma {:induction false} ImbalanceInUnitInterval(bids: Dict, asks: Dict, depth: nat)
    requires NonNegative(bids) && NonNegative(asks)
    ensures 0.0 <= Imbalance(bids, asks, depth) <= 1.0
  {
    TopVolumeNonNegative(Bid, bids, depth);
    TopVolumeNonNegative(Ask, asks, depth);
    var b, a := Volume(Take(Sort(Bid, bids), depth)), Volume(Take(Sort(Ask, asks), depth));
    if b + a > 0.0 {
      FractionInUnitInterval(b, b + a);
    }
  }

  ghost predicate Positive(d: Dict) {
    forall i :: 0 <= i < |d| ==> d[i].qty.value > 0.0
  }

  /** A zero deletes, so levels without a negative quantity leave positive quantities only. */
  lemma {:induction false} ApplyDictPositive(d: Dict, levels: seq<Level>)
    requires Positive(d) && NonNegative(levels)
    ensures Positive(ApplyDict(d, levels))
  {
    if levels != [] {
      var n := |levels| - 1;
      ApplyDictPositive(d, levels[..n]);
      PutKeepsPositive(ApplyDict(d, levels[..n]), levels[n]);
      PopKeepsPositive(ApplyDict(d, levels[..n]), levels[n].price);
    }
  }

  lemma {:induction false} PutKeepsPositive(d: Dict, level: Level)
    requires Positive(d)
    ensures level.qty.value > 0.0 ==> Positive(Put(d, level))
  {
    if d != [] {
      PutKeepsPositive(d[1..], level);
    }
  }

  lemma {:induction false} PopKeepsPositive(d: Dict, price: Decimal)
    requires Positive(d)
    ensures Positive(Pop(d, price))
  {
    if d != [] {
      PopKeepsPositive(d[1..], price);
    }
  }

  lemma {:induction false} TopVolumePositive(side: Side, d: Dict, depth: nat)
    requires Positive(d) && d != [] && depth > 0
    ensures Volume(Take(Sort(side, d), depth)) > 0.0
  {
    var s := Sort(side, d);
    SortIsSorted(side, d);
    forall i | 0 <= i < |s| ensures s[i].qty.value > 0.0 {
      assert s[i] in multiset(s);
      assert s[i] in d;
    }
    var top := Take(s, depth);
    assert |multiset(s)| == |multiset(d)|;
    VolumeNonNegative(top[..|top| - 1]);
  }

  /** With positive quantities on both sides the imbalance is strictly between 0 and 1. */
  lemma {:induction false} ImbalanceInsideUnitInterval(bids: Dict, asks: Dict, depth: nat)
    requires Positive(bids) && Positive(asks) && bids != [] && asks != [] && depth > 0
    ensures 0.0 < Imbalance(bids, asks, depth) < 1.0
  {
    TopVolumePositive(Bid, bids, depth);
    TopVolumePositive(Ask, asks, depth);
    var b, a := Volume(Take(Sort(Bid, bids), depth)), Volume(Take(Sort(Ask, asks), depth));
    FractionInside(b, b + a);
  }

  lemma {:induction false} FractionInside(part: real, whole: real)
    requires 0.0 < part < whole
    ensures 0.0 < part / whole < 1.0
  {
    var share, rest := part / whole, (whole - part) / whole;
    assert rest > 0.0 && share + rest == 1.0 by {
      assert share * whole == part && rest * whole == whole - part;
      assert (share + rest - 1.0) * whole == 0.0;
    }
  }

  lemma {:induction false} FractionInUnitInterval(part: real, whole: real)
    requires 0.0 <= part <= whole && whole > 0.0
    ensures 0.0 <= part / whole <= 1.0
  {
  }

  // ---- Top-N locality ----

  /** How many levels of d are strictly better than a price. */
  function CountBetter(side: Side, d: seq<Level>, price: Decimal): nat {
    if d == [] then 0
    else CountBetter(side, d[..|d| - 1], price) + if Better(side, d[|d| - 1].price, price) then 1 else 0
  }

  /** The first depth levels exist and are all strictly better than the price. */
  ghost predicate Deep(side: Side, s: seq<Level>, depth: nat, price: Decimal) {
    depth <= |s| && forall i :: 0 <= i < depth ==> Better(side, s[i].price, price)
  }

  lemma {:induction false} CountAppend(side: Side, a: seq<Level>, b: seq<Level>, price: Decimal)
    ensures CountBetter(side, a + b, price) == CountBetter(side, a, price) + CountBetter(side, b, price)
  {
    if b == [] {
      assert a + b == a;
    } else {
      assert (a + b)[..|a + b| - 1] == a + b[..|b| - 1];
      CountAppend(side, a, b[..|b| - 1], price);
    }
  }

  lemma {:induction false} CountInsert(side: Side, s: seq<Level>, x: Level, price: Decimal)
    ensures CountBetter(side, Insert(side, s, x), price)
            == CountBetter(side, s, price) + CountBetter(side, [x], price)
  {
    if s == [] || Better(side, x.price, s[0].price) {
      CountAppend(side, [x], s, price);
    } else {
      CountInsert(side, s[1..], x, price);
      CountAppend(side, [s[0]], Insert(side, s[1..], x), price);
      CountAppend(side, [s[0]], s[1..], price);
      assert s == [s[0]] + s[1..];
    }
  }

  lemma {:induction false} CountSort(side: Side, d: Dict, price: Decimal)
    ensures CountBetter(side, Sort(side, d), price) == CountBetter(side, d, price)
  {
    if d != [] {
      var n := |d| - 1;
      CountSort(side, d[..n], price);
      CountInsert(side, Sort(side, d[..n]), d[n], price);
      CountAppend(side, d[..n], [d[n]], price);
      assert d == d[..n] + [d[n]];
    }
  }

  lemma {:induction false} CountSorted(side: Side, s: seq<Level>, depth: nat, price: Decimal)
    requires SortedBy(side, s)
    ensures CountBetter(side, s, price) <= |s|
    ensures CountBetter(side, s, price) >= depth ==> Deep(side, s, depth, price)
    ensures s != [] && !Better(side, s[0].price, price) ==> CountBetter(side, s, price) == 0
    ensures Deep(side, s, depth, price) ==> CountBetter(side, s, price) >= depth
  {
    if s != [] {
      var n := |s| - 1;
      CountSorted(side, s[..n], if depth <= n then depth else n, price);
    }
  }

  /** A price has depth strictly better levels in a dict exactly when it is strictly worse than the
      whole top of the sorted list. */
  lemma {:induction false} DeepIffCount(side: Side, d: Dict, depth: nat, price: Decimal)
    ensures Deep(side, Sort(side, d), depth, price) <==> CountBetter(side, d, price) >= depth
  {
    SortIsSorted(side, d);
    CountSort(side, d, price);
    CountSorted(side, Sort(side, d), depth, price);
  }

  lemma {:induction false} InsertBelowTop(side: Side, s: seq<Level>, x: Level, depth: nat)
    requires Deep(side, s, depth, x.price)
    ensures depth <= |Insert(side, s, x)| && Insert(side, s, x)[..depth] == s[..depth]
  {
    if depth > 0 {
      assert forall i :: 0 <= i < depth - 1 ==> s[1..][i] == s[i + 1];
      InsertBelowTop(side, s[1..], x, depth - 1);
      assert s[..depth] == [s[0]] + s[1..][..depth - 1];
    }
  }

  lemma {:induction false} PopMultiset(d: Dict, price: Decimal)
    ensures (forall i :: 0 <= i < |d| ==> d[i].price != price) ==> Pop(d, price) == d
    ensures (exists i :: 0 <= i < |d| && d[i].price == price) ==>
              exists x: Level :: x.price == price && x in d && multiset(d) == multiset(Pop(d, price)) + multiset{x}
  {
    if d != [] {
      assert d == [d[0]] + d[1..];
      if d[0].price == price {
        assert d[0].price == price && d[0] in d;
      } else {
        PopMultiset(d[1..], price);
        if exists i :: 0 <= i < |d| && d[i].price == price {
          var i :| 0 <= i < |d| && d[i].price == price;
          assert d[1..][i - 1].price == price;
          var x: Level :| x.price == price && x in d[1..]
                          && multiset(d[1..]) == multiset(Pop(d[1..], price)) + multiset{x};
          assert x in d;
        }
      }
    }
  }

  lemma {:induction false} PutMultiset(d: Dict, level: Level)
    ensures multiset(Put(d, level)) == multiset(Pop(d, level.price)) + multiset{level}
  {
    if d != [] {
      assert d == [d[0]] + d[1..];
      if d[0].price != level.price {
        PutMultiset(d[1..], level);
      }
    }
  }

  lemma {:induction false} PopNumericallyDistinct(d: Dict, price: Decimal)
    requires NumericallyDistinct(d)
    ensures NumericallyDistinct(Pop(d, price))
    ensures forall x :: x in Pop(d, price) ==> x in d && x.price != price
  {
    if d != [] {
      if d[0].price == price {
        forall x | x in d[1..] ensures x.price != price {
          var i :| 0 <= i < |d[1..]| && d[1..][i] == x;
          assert d[i + 1] == x;
        }
      } else {
        PopNumericallyDistinct(d[1..], price);
        assert d == [d[0]] + d[1..];
      }
    }
  }

  /** Deleting a deep level leaves the top alone. */
  lemma {:induction false} PopBelowTop(side: Side, d: Dict, price: Decimal, depth: nat)
    requires NumericallyDistinct(d)
    requires Deep(side, Sort(side, d), depth, price)
    ensures Deep(side, Sort(side, Pop(d, price)), depth, price)
    ensures Sort(side, Pop(d, price))[..depth] == Sort(side, d)[..depth]
  {
    PopMultiset(d, price);
    if exists i :: 0 <= i < |d| && d[i].price == price {
      var x: Level :| x.price == price && x in d && multiset(d) == multiset(Pop(d, price)) + multiset{x};
      var rest := Pop(d, price);
      assert multiset(rest + [x]) == multiset(d);
      SortByMultiset(side, d, rest + [x]);
      assert (rest + [x])[..|rest|] == rest;
      assert Sort(side, d) == Insert(side, Sort(side, rest), x);
      DeepIffCount(side, d, depth, price);
      CountSort(side, d, price);
      CountInsert(side, Sort(side, rest), x, price);
      CountSort(side, rest, price);
      assert !Better(side, x.price, price);
      DeepIffCount(side, rest, depth, price);
      InsertBelowTop(side, Sort(side, rest), x, depth);
    }
  }

  /** Upserting a deep level leaves the top alone. */
  lemma {:induction false} PutBelowTop(side: Side, d: Dict, level: Level, depth: nat)
    requires NumericallyDistinct(d) && NumericallyDistinct(Put(d, level))
    requires Deep(side, Sort(side, d), depth, level.price)
    ensures depth <= |Sort(side, Put(d, level))|
    ensures Sort(side, Put(d, level))[..depth] == Sort(side, d)[..depth]
  {
    var rest := Pop(d, level.price);
    PopBelowTop(side, d, level.price, depth);
    PutMultiset(d, level);
    assert multiset(rest + [level]) == multiset(Put(d, level));
    SortByMultiset(side, Put(d, level), rest + [level]);
    assert (rest + [level])[..|rest|] == rest;
    InsertBelowTop(side, Sort(side, rest), level, depth);
  }

  /** Equal numbers among these levels' prices mean equal prices. */
  ghost predicate ValuesIdentify(levels: seq<Level>) {
    forall i, j :: 0 <= i < |levels| && 0 <= j < |levels| && levels[i].price.value == levels[j].price.value ==>
      levels[i].price == levels[j].price
  }

  lemma {:induction false} ApplyDictContents(d: Dict, levels: seq<Level>)
    requires Distinct(d) && ValuesIdentify(d + levels)
    ensures NumericallyDistinct(ApplyDict(d, levels))
  {
    ApplyDictRefines(d, levels);
    var r := ApplyDict(d, levels);
    forall i | 0 <= i < |r| ensures exists k :: 0 <= k < |d + levels| && (d + levels)[k].price == r[i].price {
      ApplyDictKeys(d, levels, r[i].price);
    }
    forall i, j | 0 <= i < j < |r| ensures r[i].price.value != r[j].price.value {
      var k :| 0 <= k < |d + levels| && (d + levels)[k].price == r[i].price;
      var l :| 0 <= l < |d + levels| && (d + levels)[l].price == r[j].price;
    }
  }

  lemma {:induction false} ApplyDictKeys(d: Dict, levels: seq<Level>, price: Decimal)
    requires Distinct(d)
    requires exists i :: 0 <= i < |ApplyDict(d, levels)| && ApplyDict(d, levels)[i].price == price
    ensures exists k :: 0 <= k < |d + levels| && (d + levels)[k].price == price
  {
    ApplyDictRefines(d, levels);
    ToMapHas(ApplyDict(d, levels), price);
    ApplyLevelsAt(ToMap(d), levels, price);
    assert Lookup(ApplyLevels(ToMap(d), levels), price).Some?;
    if LastQty(levels, price).Some? {
      var i :| 0 <= i < |levels| && levels[i].price == price;
      assert (d + levels)[|d| + i].price == price;
    } else {
      ToMapHas(d, price);
      var i :| 0 <= i < |d| && d[i].price == price;
      assert (d + levels)[i].price == price;
    }
  }

  /** A whole diff that only speaks about prices with at least depth strictly better levels, deletions
      included, leaves the top depth levels as they were. */
  lemma {:induction false} DeepDiffKeepsTop(side: Side, d: Dict, levels: seq<Level>, depth: nat)
    requires Distinct(d) && ValuesIdentify(d + levels)
    requires forall i :: 0 <= i < |levels| ==> CountBetter(side, d, levels[i].price) >= depth
    ensures Take(Sort(side, ApplyDict(d, levels)), depth) == Take(Sort(side, d), depth)
  {
    if levels != [] {
      hide Sort, ApplyDict, CountBetter;
      DeepDiffKeepsPrefix(side, d, levels, depth);
      assert forall s: seq<Level> :: |s| == depth ==> s[..depth] == s;
    }
  }

  lemma {:induction false} DeepDiffKeepsPrefix(side: Side, d: Dict, levels: seq<Level>, depth: nat)
    requires Distinct(d) && ValuesIdentify(d + levels)
    requires forall i :: 0 <= i < |levels| ==> CountBetter(side, d, levels[i].price) >= depth
    ensures levels != [] ==>
              var s := Sort(side, ApplyDict(d, levels));
              depth <= |s| && depth <= |Sort(side, d)| && s[..depth] == Sort(side, d)[..depth]
  {
    if levels != [] {
      var n := |levels| - 1;
      var front := levels[..n];
      assert forall i :: 0 <= i < |d + front| ==> (d + front)[i] == (d + levels)[i];
      DeepDiffKeepsPrefix(side, d, front, depth);
      var mid := ApplyDict(d, front);
      DeepIffCount(side, d, depth, levels[n].price);
      if front == [] { assert mid == d; }
      assert Deep(side, Sort(side, mid), depth, levels[n].price) by {
        assert forall i :: 0 <= i < depth ==> Sort(side, mid)[i] == Sort(side, mid)[..depth][i]
                                              && Sort(side, d)[i] == Sort(side, d)[..depth][i];
      }
      ApplyDictContents(d, front);
      ApplyDictContents(d, levels);
      if levels[n].qty.value == 0.0 {
        PopBelowTop(side, mid, levels[n].price, depth);
      } else {
        PutBelowTop(side, mid, levels[n], depth);
      }
    }
  }

  /** Hence the imbalance does not notice a diff that stays below the top of both sides. */
  lemma {:induction false} DeepDiffKeepsImbalance(book: DictBook, event: DepthEvent, depth: nat)
    requires book.Valid()
    requires ValuesIdentify(book.bids + event.bids) && ValuesIdentify(book.asks + event.asks)
    requires forall i :: 0 <= i < |event.bids| ==> CountBetter(Bid, book.bids, event.bids[i].price) >= depth
    requires forall i :: 0 <= i < |event.asks| ==> CountBetter(Ask, book.asks, event.asks[i].price) >= depth
    ensures Imbalance(ApplyDict(book.bids, event.bids), ApplyDict(book.asks, event.asks), depth)
            == Imbalance(book.bids, book.asks, depth)
  {
    DeepDiffKeepsTop(Bid, book.bids, event.bids, depth);
    DeepDiffKeepsTop(Ask, book.asks, event.asks, depth);
  }

  // ---- The top of the book without sorting ----

  /** The volume of the levels of s that have fewer than depth strictly better levels in d. */
  function RankVolume(side: Side, d: Dict, s: seq<Level>, depth: nat): real {
    if s == [] then 0.0
    else
      var x := s[|s| - 1];
      RankVolume(side, d, s[..|s| - 1], depth) + if CountBetter(side, d, x.price) < depth then x.qty.value else 0.0
  }

  lemma {:induction false} RankVolumeAppend(side: Side, d: Dict, a: seq<Level>, b: seq<Level>, depth: nat)
    ensures RankVolume(side, d, a + b, depth) == RankVolume(side, d, a, depth) + RankVolume(side, d, b, depth)
  {
    if b == [] {
      assert a + b == a;
    } else {
      assert (a + b)[..|a + b| - 1] == a + b[..|b| - 1];
      RankVolumeAppend(side, d, a, b[..|b| - 1], depth);
    }
  }

  lemma {:induction false} RankVolumeInsert(side: Side, d: Dict, s: seq<Level>, x: Level, depth: nat)
    ensures RankVolume(side, d, Insert(side, s, x), depth)
            == RankVolume(side, d, s, depth) + RankVolume(side, d, [x], depth)
  {
    if s == [] || Better(side, x.price, s[0].price) {
      RankVolumeAppend(side, d, [x], s, depth);
    } else {
      RankVolumeInsert(side, d, s[1..], x, depth);
      RankVolumeAppend(side, d, [s[0]], Insert(side, s[1..], x), depth);
      RankVolumeAppend(side, d, [s[0]], s[1..], depth);
      assert s == [s[0]] + s[1..];
    }
  }

  lemma {:induction false} RankVolumeSort(side: Side, d: Dict, s: seq<Level>, depth: nat)
    ensures RankVolume(side, d, Sort(side, s), depth) == RankVolume(side, d, s, depth)
  {
    if s != [] {
      var n := |s| - 1;
      RankVolumeSort(side, d, s[..n], depth);
      RankVolumeInsert(side, d, Sort(side, s[..n]), s[n], depth);
      RankVolumeAppend(side, d, s[..n], [s[n]], depth);
      assert s == s[..n] + [s[n]];
    }
  }

  /** In a strictly sorted list the level at position i has exactly i better ones. */
  lemma {:induction false} RankInSorted(side: Side, s: seq<Level>, i: nat, k: nat)
    requires SortedBy(side, s) && NumericallyDistinct(s) && i < |s| && k <= |s|
    ensures CountBetter(side, s[..k], s[i].price) == if k <= i then k else i
  {
    if k > 0 {
      assert s[..k][..k - 1] == s[..k - 1];
      RankInSorted(side, s, i, k - 1);
      if k - 1 < i {
        assert !Better(side, s[i].price, s[k - 1].price);
      } else if i < k - 1 {
        assert !Better(side, s[k - 1].price, s[i].price);
      }
    }
  }

  lemma {:induction false} RankVolumeOfSorted(side: Side, d: Dict, s: seq<Level>, depth: nat, k: nat)
    requires k <= |s|
    requires forall i :: 0 <= i < |s| ==> CountBetter(side, d, s[i].price) == i
    ensures RankVolume(side, d, s[..k], depth) == Volume(Take(s[..k], depth))
  {
    if k > 0 {
      assert s[..k][..k - 1] == s[..k - 1];
      RankVolumeOfSorted(side, d, s, depth, k - 1);
      if k <= depth {
        assert Take(s[..k], depth)[..k - 1] == Take(s[..k - 1], depth);
      } else {
        assert Take(s[..k], depth) == s[..depth] == Take(s[..k - 1], depth);
      }
    }
  }

  lemma {:induction false} TopVolumeIsRankVolume(side: Side, d: Dict, depth: nat)
    requires NumericallyDistinct(d)
    ensures Volume(Take(Sort(side, d), depth)) == RankVolume(side, d, d, depth)
  {
    var s := Sort(side, d);
    SortIsSorted(side, d);
    DistinctByMultiset(d, s);
    forall i | 0 <= i < |s| ensures CountBetter(side, d, s[i].price) == i {
      RankInSorted(side, s, i, |s|);
      assert s[..|s|] == s;
      CountSort(side, d, s[i].price);
    }
    RankVolumeOfSorted(side, d, s, depth, |s|);
    assert s[..|s|] == s;
    RankVolumeSort(side, d, d, depth);
  }

  /** The imbalance without sorting: the share of bid volume in the volume of those levels that have fewer
      than depth strictly better levels on their side, higher prices being better for bids and lower ones
      for asks; one half when there is no such volume. */
  lemma {:induction false} ImbalanceByRank(bids: Dict, asks: Dict, depth: nat)
    requires NumericallyDistinct(bids) && NumericallyDistinct(asks)
    ensures var b, a := RankVolume(Bid, bids, bids, depth), RankVolume(Ask, asks, asks, depth);
            Imbalance(bids, asks, depth) == if b + a > 0.0 then b / (b + a) else 0.5
  {
    TopVolumeIsRankVolume(Bid, bids, depth);
    TopVolumeIsRankVolume(Ask, asks, depth);
  }
}
