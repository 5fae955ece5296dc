/** One WebSocket client (ingest/src/ingest/client.py): buffer until the snapshot is there, then apply
    and produce live diffs, and reconnect with exponential backoff when a session fails. */
module Client {
  import opened Wrappers
  import opened Books
  import opened OrderBooks

  /** One raw WebSocket message, as _parse_event sees it. */
  datatype Frame = Unparseable | OtherType | Depth(event: DepthEvent)

  /** A live message with the wall clock at the moment it is handled. */
  datatype LiveFrame = LiveFrame(frame: Frame, nowMs: int)

  /** What the outside world does during one session: the messages received while the snapshot is
      being fetched, whether the socket fails meanwhile, the snapshot (None when the request fails),
      the live messages, the position among the live diffs at which producing raises (None when it
      never does), and whether the socket is then closed without an error. */
  datatype Feed = Feed(buffered: seq<Frame>, socketFails: bool, snapshot: Option<DepthSnapshot>,
                       live: seq<LiveFrame>, sendFailsAt: Option<nat>, closesCleanly: bool)

  function ParseEvent(frame: Frame): Option<DepthEvent> {
    match frame
    case Depth(event) => Some(event)
    case _ => None
  }

  function ToOrderBookEvent(symbol: string, event: DepthEvent, nowMs: int): OrderBookEvent {
    OrderBookEvent("binance", symbol, event, nowMs)
  }

  /** The depth events among the buffered messages, in order. */
  function BufferOf(frames: seq<Frame>): seq<DepthEvent> {
    if frames == [] then []
    else
      var n := |frames| - 1;
      BufferOf(frames[..n]) + match ParseEvent(frames[n]) case Some(e) => [e] case None => []
  }

  /** The records the live messages would become, in order. */
  function MessagesOf(symbol: string, frames: seq<LiveFrame>): seq<OrderBookEvent> {
    if frames == [] then []
    else
      var n := |frames| - 1;
      MessagesOf(symbol, frames[..n])
      + match ParseEvent(frames[n].frame)
        case Some(e) => [ToOrderBookEvent(symbol, e, frames[n].nowMs)]
        case None => []
  }

  /** The book when the live phase begins, None when the session fails before that. */
  function LiveStart(feed: Feed): Option<BookState> {
    if feed.socketFails || feed.snapshot.None? then None
    else
      var r := Run(StartOf(feed.snapshot.value), BufferOf(feed.buffered));
      if r.gapAt.Some? then None else Some(r.state)
  }

  predicate SendFails(messages: seq<OrderBookEvent>, sendFailsAt: Option<nat>) {
    sendFailsAt.Some? && sendFailsAt.value < |messages|
  }

  /** The messages the live loop gets to, unless a gap stops it before: the one whose send raises has
      been applied to the book, the later ones are never looked at. */
  function Reached(messages: seq<OrderBookEvent>, sendFailsAt: Option<nat>): seq<OrderBookEvent> {
    if SendFails(messages, sendFailsAt) then messages[..sendFailsAt.value + 1] else messages
  }

  /** The live part: every live diff up to the first gap or failing send is produced, stale ones
      included. */
  function ProducedFrom(start: BookState, messages: seq<OrderBookEvent>, sendFailsAt: Option<nat>)
    : seq<OrderBookEvent>
  {
    var r := Run(start, Diffs(Reached(messages, sendFailsAt)));
    if r.gapAt.Some? && r.gapAt.value <= |messages| then messages[..r.gapAt.value]
    else if SendFails(messages, sendFailsAt) then messages[..sendFailsAt.value]
    else messages
  }

  predicate LiveSucceeds(start: BookState, messages: seq<OrderBookEvent>, sendFailsAt: Option<nat>) {
    Run(start, Diffs(messages)).gapAt.None? && !SendFails(messages, sendFailsAt)
  }

  function SessionProduced(symbol: string, feed: Feed): seq<OrderBookEvent> {
    match LiveStart(feed)
    case None => []
    case Some(start) => ProducedFrom(start, MessagesOf(symbol, feed.live), feed.sendFailsAt)
  }

  predicate SessionSucceeds(symbol: string, feed: Feed) {
    && LiveStart(feed).Some?
    && LiveSucceeds(LiveStart(feed).value, MessagesOf(symbol, feed.live), feed.sendFailsAt)
    && feed.closesCleanly
  }

  /** Everything a session's book is told: the buffer, then the live diffs the loop gets to. */
  function SessionDiffs(symbol: string, feed: Feed): seq<DepthEvent> {
    BufferOf(feed.buffered) + Diffs(Reached(MessagesOf(symbol, feed.live), feed.sendFailsAt))
  }

  function ProducedByAll(symbol: string, feeds: seq<Feed>): seq<OrderBookEvent> {
    if feeds == [] then []
    else ProducedByAll(symbol, feeds[..|feeds| - 1]) + SessionProduced(symbol, feeds[|feeds| - 1])
  }

  const BACKOFF_BASE := 1.0
  const BACKOFF_CAP := 60.0

  function Pow2(k: nat): (r: nat)
    ensures r >= 1
  {
    if k == 0 then 1 else 2 * Pow2(k - 1)
  }

  function Backoff(retries: nat): real {
    var wait := BACKOFF_BASE * Pow2(retries) as real;
    if wait < BACKOFF_CAP then wait else BACKOFF_CAP
  }

  /** The reconnect loop after some sessions: consecutive failures, the sleeps taken so far, and the
      session whose exception was raised again. */
  datatype Loop = Loop(retries: nat, sleeps: seq<real>, raisedAt: Option<nat>)

  function RunLoop(maxRetries: nat, succeeds: seq<bool>): Loop {
    if succeeds == [] then Loop(0, [], None)
    else
      var n := |succeeds| - 1;
      NextLoop(maxRetries, RunLoop(maxRetries, succeeds[..n]), succeeds[n], n)
  }

  function NextLoop(maxRetries: nat, before: Loop, ok: bool, session: nat): Loop {
    if before.raisedAt.Some? then before
    else if ok then before.(retries := 0)
    else if before.retries + 1 > maxRetries then Loop(before.retries + 1, before.sleeps, Some(session))
    else Loop(before.retries + 1, before.sleeps + [Backoff(before.retries + 1)], None)
  }

  function Outcomes(symbol: string, feeds: seq<Feed>): (os: seq<bool>)
    ensures |os| == |feeds|
    ensures forall i :: 0 <= i < |os| ==> (os[i] <==> SessionSucceeds(symbol, feeds[i]))
  {
    seq(|feeds|, i requires 0 <= i < |feeds| => SessionSucceeds(symbol, feeds[i]))
  }

  predicate IsDepth(frame: Frame) {
    frame.Depth?
  }

  predicate IsLiveDepth(live: LiveFrame) {
    live.frame.Depth?
  }

  /** The record a live depth frame becomes. */
  ghost predicate RecordOf(symbol: string, live: LiveFrame, record: OrderBookEvent) {
    && live.frame.Depth?
    && record.exchange == "binance" && record.symbol == symbol
    && record.diff == live.frame.event && record.ingestMs == live.nowMs
  }

  /** The records are those of the first depth frames, in order, one each. */
  ghost predicate RecordsOf(symbol: string, frames: seq<LiveFrame>, records: seq<OrderBookEvent>) {
    var at := Positions(frames, IsLiveDepth);
    |records| <= |at| && forall k :: 0 <= k < |records| ==> RecordOf(symbol, frames[at[k]], records[k])
  }

  class BinanceOrderBookClient {
    const symbol: string
    /** Everything handed to the Kafka producer so far, in order. */
    var produced: seq<OrderBookEvent>

    constructor (symbol: string)
      ensures this.symbol == symbol && produced == []
    {
      this.symbol := symbol;
      produced := [];
    }

    /** Buffers until the snapshot is there, then initializes the book; ok is false when an exception
        leaves the method. */
    method InitializeBook(feed: Feed, book: OrderBook) returns (ok: bool)
      modifies book
      ensures ok <==> LiveStart(feed).Some?
      ensures ok ==> book.State() == LiveStart(feed).value
    {
      var buffer: seq<DepthEvent> := [];
      for i := 0 to |feed.buffered|
        invariant buffer == BufferOf(feed.buffered[..i])
      {
        assert feed.buffered[..i + 1][..i] == feed.buffered[..i];
        var event := ParseEvent(feed.buffered[i]);
        if event.Some? {
          buffer := buffer + [event.value];
        }
      }
      assert feed.buffered[..|feed.buffered|] == feed.buffered;
      if feed.socketFails || feed.snapshot.None? {
        return false;
      }
      var raised := book.Initialize(feed.snapshot.value, buffer);
      return raised.None?;
    }

    /** The live phase: apply each diff, stop at a gap, produce the others, stale ones included. A send
        that raises leaves its diff applied and not produced. */
    method RunLive(book: OrderBook, frames: seq<LiveFrame>, sendFailsAt: Option<nat>) returns (ok: bool)
      modifies this, book
      ensures var messages := MessagesOf(symbol, frames);
              ok == LiveSucceeds(old(book.State()), messages, sendFailsAt)
              && book.State() == Run(old(book.State()), Diffs(Reached(messages, sendFailsAt))).state
      ensures produced == old(produced) + ProducedFrom(old(book.State()), MessagesOf(symbol, frames), sendFailsAt)
      ensures RecordsOf(symbol, frames, produced[|old(produced)|..])
    {
      ProducedRecords(symbol, frames, book.State(), sendFailsAt);
      ghost var start := book.State();
      assert LiveHead(symbol, frames, sendFailsAt, start, 0, book.State(), []);
      hide Diffs, StepOf, LiveHead, ProducedFrom, LiveSucceeds, Reached, RecordsOf;
      var sent: nat := 0;
      ghost var messages: seq<OrderBookEvent> := [];
      for i := 0 to |frames|
        invariant LiveHead(symbol, frames, sendFailsAt, start, i, book.State(), messages)
        invariant sent == |messages| && produced == old(produced) + messages
      {
        LiveStep(symbol, frames, sendFailsAt, start, i, book.State(), messages);
        var event := ParseEvent(frames[i].frame);
        if event.None? {
          continue;
        }
        var message := ToOrderBookEvent(symbol, event.value, frames[i].nowMs);
        var raised := book.Apply(event.value);
        if raised {
          return false;
        }
        if sendFailsAt == Some(sent) {
          return false;
        }
        produced := produced + [message];
        sent := sent + 1;
        messages := messages + [message];
      }
      LiveEnd(symbol, frames, sendFailsAt, start, book.State(), messages);
      return true;
    }

    /** One session. The local book of a session that gets to the live phase has seen the buffer and
        then the live diffs, and what is produced is exactly the live diffs up to a gap or a failing
        send. */
    method RunOnce(feed: Feed) returns (ok: bool, book: OrderBook)
      modifies this
      ensures fresh(book)
      ensures ok <==> SessionSucceeds(symbol, feed)
      ensures produced == old(produced) + SessionProduced(symbol, feed)
      ensures LiveStart(feed).Some? ==>
                book.State() == Run(StartOf(feed.snapshot.value), SessionDiffs(symbol, feed)).state
    {
      book := new OrderBook(symbol);
      var ready := InitializeBook(feed, book);
      if !ready {
        return false, book;
      }
      SnapshotTimingDoesNotMatter(StartOf(feed.snapshot.value), BufferOf(feed.buffered),
                                  Diffs(Reached(MessagesOf(symbol, feed.live), feed.sendFailsAt)));
      var live := RunLive(book, feed.live, feed.sendFailsAt);
      return live && feed.closesCleanly, book;
    }

    /** Reconnects after every failure, until more than maxRetries sessions in a row have failed. The
        source loops forever; feeds is the finite part of its life observed so far. */
    method RunForever(maxRetries: nat, feeds: seq<Feed>) returns (sleeps: seq<real>, raisedAt: Option<nat>)
      modifies this
      ensures var loop := RunLoop(maxRetries, Outcomes(symbol, feeds));
              loop.sleeps == sleeps && loop.raisedAt == raisedAt
      ensures raisedAt.Some? ==> raisedAt.value < |feeds|
      ensures produced == old(produced)
                          + ProducedByAll(symbol, if raisedAt.Some? then feeds[..raisedAt.value + 1] else feeds)
    {
      hide SessionSucceeds, SessionProduced, Outcomes;
      var retries: nat := 0;
      sleeps := [];
      for i := 0 to |feeds|
        invariant RunLoop(maxRetries, Outcomes(symbol, feeds[..i])) == Loop(retries, sleeps, None)
        invariant produced == old(produced) + ProducedByAll(symbol, feeds[..i])
      {
        LoopStep(maxRetries, symbol, feeds, i);
        var ok, _ := RunOnce(feeds[i]);
        if ok {
          retries := 0;
        } else {
          retries := retries + 1;
          if retries > maxRetries {
            LoopEnds(maxRetries, symbol, feeds, i + 1);
            return sleeps, Some(i);
          }
          sleeps := sleeps + [Backoff(retries)];
        }
      }
      assert feeds[..|feeds|] == feeds;
      return sleeps, None;
    }
  }

  // ---- What is buffered, and what is sent ----

  /** The buffer holds the diff of every depth frame received before the snapshot, in order. */
  lemma {:induction false} BufferElements(frames: seq<Frame>)
    ensures var at := Positions(frames, IsDepth);
            |BufferOf(frames)| == |at| && forall k :: 0 <= k < |at| ==> BufferOf(frames)[k] == frames[at[k]].event
  {
    if frames != [] {
      BufferElements(frames[..|frames| - 1]);
    }
  }

  /** Every live depth frame makes one record, in order, with the exchange's name, the client's symbol, the
      diff as it came, and the clock of that frame. */
  lemma {:induction false} MessageElements(symbol: string, frames: seq<LiveFrame>)
    ensures |MessagesOf(symbol, frames)| == |Positions(frames, IsLiveDepth)|
    ensures RecordsOf(symbol, frames, MessagesOf(symbol, frames))
  {
    if frames != [] {
      MessageElements(symbol, frames[..|frames| - 1]);
    }
  }

  /** No diff up to record k leaves out an id, and no send up to it raises. */
  ghost predicate GetsSent(start: int, messages: seq<OrderBookEvent>, sendFailsAt: Option<nat>, k: nat)
    requires k < |messages|
  {
    && (forall i :: 0 <= i <= k ==> !GapAt(start, Diffs(messages), i))
    && (sendFailsAt.Some? ==> k < sendFailsAt.value)
  }

  /** Exactly those records are sent. */
  lemma {:induction false} ProducedExactly(start: BookState, messages: seq<OrderBookEvent>, sendFailsAt: Option<nat>)
    ensures var sent := ProducedFrom(start, messages, sendFailsAt);
            sent <= messages
            && forall k :: 0 <= k < |messages| ==>
                 (k < |sent| <==> GetsSent(start.last, messages, sendFailsAt, k))
  {
    var reached := Reached(messages, sendFailsAt);
    GapDetectionIsExact(start, Diffs(reached));
    forall i | 0 <= i < |reached|
      ensures GapAt(start.last, Diffs(reached), i) <==> GapAt(start.last, Diffs(messages), i)
    {
      SameGap(start.last, Diffs(reached), Diffs(messages), i);
    }
    hide GapAt, Run, Diffs;
  }

  lemma {:induction false} SameGap(start: int, a: seq<DepthEvent>, b: seq<DepthEvent>, i: nat)
    requires a <= b && i < |a|
    ensures GapAt(start, a, i) <==> GapAt(start, b, i)
  {
    assert a[..i] == b[..i] && a[..i + 1] == b[..i + 1];
  }

  lemma {:induction false} ProducedRecords(symbol: string, frames: seq<LiveFrame>, start: BookState,
                                           sendFailsAt: Option<nat>)
    ensures var before := ProducedFrom(start, MessagesOf(symbol, frames), sendFailsAt);
            RecordsOf(symbol, frames, before)
    ensures forall produced: seq<OrderBookEvent> ::
              var sent := ProducedFrom(start, MessagesOf(symbol, frames), sendFailsAt);
              (produced + sent)[|produced|..] == sent
  {
    hide GapAt;
    MessageElements(symbol, frames);
    ProducedExactly(start, MessagesOf(symbol, frames), sendFailsAt);
  }

  /** No diff received leaves out an id behind the start and the diffs before it. */
  ghost predicate GapFree(start: int, events: seq<DepthEvent>) {
    forall i :: 0 <= i < |events| ==> !GapAt(start, events, i)
  }

  /** A session succeeds exactly when the socket stays up, the snapshot comes, the diffs received are free of
      gaps, no send raises, and the socket closes without an error. Without the socket or the snapshot
      nothing is sent. */
  lemma {:induction false} SessionSucceedsIff(symbol: string, feed: Feed)
    ensures var messages := MessagesOf(symbol, feed.live);
            SessionSucceeds(symbol, feed)
            <==> !feed.socketFails && feed.snapshot.Some? && feed.closesCleanly
                 && (feed.sendFailsAt.None? || feed.sendFailsAt.value >= |messages|)
                 && GapFree(feed.snapshot.value.last, BufferOf(feed.buffered) + Diffs(messages))
    ensures feed.socketFails || feed.snapshot.None? ==> SessionProduced(symbol, feed) == []
  {
    if !feed.socketFails && feed.snapshot.Some? {
      var s := StartOf(feed.snapshot.value);
      SmoothIff(s, BufferOf(feed.buffered), Diffs(MessagesOf(symbol, feed.live)));
      hide Run, BufferOf, MessagesOf, GapFree;
    }
  }

  lemma {:induction false} SmoothIff(s: BookState, a: seq<DepthEvent>, b: seq<DepthEvent>)
    ensures GapFree(s.last, a + b) <==> Run(s, a).gapAt.None? && Run(Run(s, a).state, b).gapAt.None?
  {
    SnapshotTimingDoesNotMatter(s, a, b);
    GapDetectionIsExact(s, a + b);
  }

  lemma {:induction false} MessagesStep(symbol: string, frames: seq<LiveFrame>, i: nat)
    requires i < |frames|
    ensures MessagesOf(symbol, frames[..i + 1])
            == match ParseEvent(frames[i].frame)
               case Some(e) => MessagesOf(symbol, frames[..i]) + [ToOrderBookEvent(symbol, e, frames[i].nowMs)]
               case None => MessagesOf(symbol, frames[..i])
  {
    assert frames[..i + 1][..i] == frames[..i];
  }

  lemma {:induction false} RunStep(start: BookState, seen: seq<OrderBookEvent>, message: OrderBookEvent)
    ensures Run(start, Diffs(seen)).gapAt.None? ==>
              var before := Run(start, Diffs(seen)).state;
              Run(start, Diffs(seen + [message]))
              == match StepOf(before, message.diff)
                 case Stale => RunResult(before, None)
                 case Gap => RunResult(before, Some(|seen|))
                 case Applied(next) => RunResult(next, None)
  {
    assert Diffs(seen + [message])[..|seen|] == Diffs(seen);
  }

  /** The live loop before frame i: the book has taken in the messages of the frames so far, none of
      them raised, and all have been sent. */
  ghost predicate LiveHead(symbol: string, frames: seq<LiveFrame>, sendFailsAt: Option<nat>, start: BookState,
                           i: nat, now: BookState, seen: seq<OrderBookEvent>) {
    && i <= |frames|
    && seen == MessagesOf(symbol, frames[..i])
    && Run(start, Diffs(seen)) == RunResult(now, None)
    && (sendFailsAt.Some? ==> |seen| <= sendFailsAt.value)
  }

  /** One frame: what the loop goes on with, or how it ends. */
  lemma {:induction false} LiveStep(symbol: string, frames: seq<LiveFrame>, sendFailsAt: Option<nat>, start: BookState,
                                    i: nat, now: BookState, seen: seq<OrderBookEvent>)
    requires LiveHead(symbol, frames, sendFailsAt, start, i, now, seen) && i < |frames|
    ensures ParseEvent(frames[i].frame).None? ==> LiveHead(symbol, frames, sendFailsAt, start, i + 1, now, seen)
    ensures ParseEvent(frames[i].frame).Some? ==>
              var e := ParseEvent(frames[i].frame).value;
              var next := match StepOf(now, e) case Applied(next) => next case _ => now;
              if StepOf(now, e).Gap? || sendFailsAt == Some(|seen|)
              then LiveStops(symbol, frames, sendFailsAt, start, next, seen)
              else LiveHead(symbol, frames, sendFailsAt, start, i + 1, next,
                            seen + [ToOrderBookEvent(symbol, e, frames[i].nowMs)])
  {
    hide Run, StepOf, MessagesOf, Diffs, Reached, ProducedFrom, LiveSucceeds, ParseEvent;
    MessagesStep(symbol, frames, i);
    if ParseEvent(frames[i].frame).Some? {
      var e := ParseEvent(frames[i].frame).value;
      var message := ToOrderBookEvent(symbol, e, frames[i].nowMs);
      RunStep(start, seen, message);
      if StepOf(now, e).Gap? || sendFailsAt == Some(|seen|) {
        MessagesPrefix(symbol, frames, i);
        StopsWith(start, MessagesOf(symbol, frames), sendFailsAt, seen, message);
      }
    }
  }

  /** The loop ends with an exception: this is the book, and this is all that was sent. */
  ghost predicate LiveStops(symbol: string, frames: seq<LiveFrame>, sendFailsAt: Option<nat>, start: BookState,
                            now: BookState, sent: seq<OrderBookEvent>) {
    var messages := MessagesOf(symbol, frames);
    && !LiveSucceeds(start, messages, sendFailsAt)
    && now == Run(start, Diffs(Reached(messages, sendFailsAt))).state
    && sent == ProducedFrom(start, messages, sendFailsAt)
  }

  lemma {:induction false} StopsWith(start: BookState, all: seq<OrderBookEvent>, sendFailsAt: Option<nat>,
                                     seen: seq<OrderBookEvent>, message: OrderBookEvent)
    requires |seen| < |all| && all[..|seen|] == seen && all[|seen|] == message
    requires Run(start, Diffs(seen)).gapAt.None? && (sendFailsAt.Some? ==> |seen| <= sendFailsAt.value)
    requires var step := StepOf(Run(start, Diffs(seen)).state, message.diff);
             step.Gap? || sendFailsAt == Some(|seen|)
    ensures var r := Run(start, Diffs(Reached(all, sendFailsAt)));
            var before := Run(start, Diffs(seen)).state;
            r.state == (match StepOf(before, message.diff) case Applied(next) => next case _ => before)
            && ProducedFrom(start, all, sendFailsAt) == seen && !LiveSucceeds(start, all, sendFailsAt)
  {
    var reached := Reached(all, sendFailsAt);
    var before := Run(start, Diffs(seen)).state;
    RunStep(start, seen, message);
    assert Diffs(reached)[..|seen|] == Diffs(seen) && Diffs(reached)[|seen|] == message.diff;
    if StepOf(before, message.diff).Gap? {
      RunStopsAtGap(start, Diffs(reached), |seen|);
      assert Diffs(all)[..|seen|] == Diffs(seen);
      RunStopsAtGap(start, Diffs(all), |seen|);
    } else {
      assert reached == seen + [message];
    }
  }

  lemma {:induction false} LiveEnd(symbol: string, frames: seq<LiveFrame>, sendFailsAt: Option<nat>, start: BookState,
                                   now: BookState, seen: seq<OrderBookEvent>)
    requires LiveHead(symbol, frames, sendFailsAt, start, |frames|, now, seen)
    ensures var messages := MessagesOf(symbol, frames);
            LiveSucceeds(start, messages, sendFailsAt)
            && now == Run(start, Diffs(Reached(messages, sendFailsAt))).state
            && seen == ProducedFrom(start, messages, sendFailsAt)
  {
    assert frames[..|frames|] == frames;
  }

  lemma {:induction false} LoopStep(maxRetries: nat, symbol: string, feeds: seq<Feed>, i: nat)
    requires i < |feeds|
    ensures RunLoop(maxRetries, Outcomes(symbol, feeds[..i + 1]))
            == NextLoop(maxRetries, RunLoop(maxRetries, Outcomes(symbol, feeds[..i])),
                        SessionSucceeds(symbol, feeds[i]), i)
    ensures ProducedByAll(symbol, feeds[..i + 1])
            == ProducedByAll(symbol, feeds[..i]) + SessionProduced(symbol, feeds[i])
  {
    assert feeds[..i + 1][..i] == feeds[..i];
    assert Outcomes(symbol, feeds[..i + 1])[..i] == Outcomes(symbol, feeds[..i]);
  }

  lemma {:induction false} LoopEnds(maxRetries: nat, symbol: string, feeds: seq<Feed>, k: nat)
    requires k <= |feeds| && RunLoop(maxRetries, Outcomes(symbol, feeds[..k])).raisedAt.Some?
    ensures RunLoop(maxRetries, Outcomes(symbol, feeds)) == RunLoop(maxRetries, Outcomes(symbol, feeds[..k]))
  {
    assert Outcomes(symbol, feeds)[..k] == Outcomes(symbol, feeds[..k]);
    RaisedIsFinal(maxRetries, Outcomes(symbol, feeds), k);
  }

  /** The records of a prefix of the messages are a prefix of the records; the next depth message
      gives the next record. */
  lemma {:induction false} MessagesPrefix(symbol: string, frames: seq<LiveFrame>, i: nat)
    requires i < |frames| && ParseEvent(frames[i].frame).Some?
    ensures var seen, all := MessagesOf(symbol, frames[..i]), MessagesOf(symbol, frames);
            |seen| < |all| && all[..|seen|] == seen
            && all[|seen|] == ToOrderBookEvent(symbol, ParseEvent(frames[i].frame).value, frames[i].nowMs)
  {
    var n := |frames| - 1;
    if i < n {
      assert frames[..n][..i] == frames[..i];
      MessagesPrefix(symbol, frames[..n], i);
    }
  }

  lemma {:induction false} RaisedIsFinal(maxRetries: nat, succeeds: seq<bool>, k: nat)
    requires k <= |succeeds| && RunLoop(maxRetries, succeeds[..k]).raisedAt.Some?
    ensures RunLoop(maxRetries, succeeds) == RunLoop(maxRetries, succeeds[..k])
  {
    var n := |succeeds| - 1;
    if k == |succeeds| {
      assert succeeds[..k] == succeeds;
    } else {
      assert succeeds[..n][..k] == succeeds[..k];
      RaisedIsFinal(maxRetries, succeeds[..n], k);
    }
  }

  // ---- What is produced and what is applied ----

  ghost predicate IdsIncrease(events: seq<DepthEvent>) {
    forall i, j :: 0 <= i < j < |events| ==> events[i].last < events[j].last
  }

  lemma {:induction false} AppliedAreReceived(s: BookState, events: seq<DepthEvent>)
    ensures forall d :: d in AppliedDiffs(s, events) ==> d in events && d.last > s.last
    ensures Run(s, events).state.last >= s.last
  {
    if events != [] {
      AppliedAreReceived(s, events[..|events| - 1]);
    }
  }

  /** In a buffer that raises no gap and whose ids increase, exactly the diffs newer than the
      snapshot are applied. */
  lemma {:induction false} BufferApplied(s: BookState, events: seq<DepthEvent>)
    requires IdsIncrease(events) && Run(s, events).gapAt.None?
    ensures forall d :: d in events && d.last > s.last ==> d in AppliedDiffs(s, events)
    ensures events != [] ==> Run(s, events).state.last == Max(s.last, events[|events| - 1].last)
    ensures events == [] ==> Run(s, events).state.last == s.last
  {
    if events != [] {
      var n := |events| - 1;
      var front := events[..n];
      BufferApplied(s, front);
      forall d | d in events && d.last > s.last ensures d in AppliedDiffs(s, events) {
        if d != events[n] {
          var i :| 0 <= i < |events| && events[i] == d;
          assert d == front[i];
        }
      }
    }
  }

  /** Nothing behind a gap is applied. */
  lemma {:induction false} AppliedStopAtGap(s: BookState, events: seq<DepthEvent>)
    requires Run(s, events).gapAt.Some?
    ensures var k := Run(s, events).gapAt.value;
            k < |events| && AppliedDiffs(s, events) == AppliedDiffs(s, events[..k]) && Run(s, events[..k]).gapAt.None?
  {
    var n := |events| - 1;
    if Run(s, events[..n]).gapAt.Some? {
      AppliedStopAtGap(s, events[..n]);
      var k := Run(s, events).gapAt.value;
      assert events[..n][..k] == events[..k];
    }
  }

  /** Exactly the diffs before the gap that are newer than the snapshot are applied. */
  lemma {:induction false} AppliedIff(s: BookState, events: seq<DepthEvent>, d: DepthEvent)
    requires IdsIncrease(events)
    ensures var k := match Run(s, events).gapAt case Some(k) => k case None => |events|;
            k <= |events| && (d in AppliedDiffs(s, events) <==> d in events[..k] && d.last > s.last)
  {
    if Run(s, events).gapAt.Some? {
      AppliedStopAtGap(s, events);
      var k := Run(s, events).gapAt.value;
      BufferApplied(s, events[..k]);
      AppliedAreReceived(s, events[..k]);
    } else {
      assert events[..|events|] == events;
      BufferApplied(s, events);
      AppliedAreReceived(s, events);
    }
  }

  /** The diff whose send raises, after it was applied as new. */
  predicate LosesNewDiff(symbol: string, feed: Feed)
    requires LiveStart(feed).Some?
  {
    var messages := MessagesOf(symbol, feed.live);
    && SendFails(messages, feed.sendFailsAt)
    && Run(LiveStart(feed).value, Diffs(Reached(messages, feed.sendFailsAt))).gapAt.None?
    && messages[feed.sendFailsAt.value].diff.last > feed.snapshot.value.last
  }

  /** How the session's run over buffer and live diffs ends, and what it produces of the live ones. */
  lemma {:induction false} SessionCut(symbol: string, feed: Feed)
    requires LiveStart(feed).Some?
    ensures var s, all := StartOf(feed.snapshot.value), SessionDiffs(symbol, feed);
            var k := match Run(s, all).gapAt case Some(k) => k case None => |all|;
            var buffer, messages := BufferOf(feed.buffered), MessagesOf(symbol, feed.live);
            var sent := Diffs(SessionProduced(symbol, feed));
            |buffer| <= k <= |all|
            && if Run(s, all).gapAt.None? && SendFails(messages, feed.sendFailsAt)
               then all == buffer + sent + [messages[feed.sendFailsAt.value].diff]
               else all[..k] == buffer + sent
  {
    hide Run, StepOf, BufferOf, MessagesOf, IdsIncrease, SnapshotBook;
    var s, buffer, messages := StartOf(feed.snapshot.value), BufferOf(feed.buffered), MessagesOf(symbol, feed.live);
    var reached := Reached(messages, feed.sendFailsAt);
    SnapshotTimingDoesNotMatter(s, buffer, Diffs(reached));
    GapDetectionIsExact(LiveStart(feed).value, Diffs(reached));
    var sent := SessionProduced(symbol, feed);
    assert sent <= reached;
    assert Diffs(reached)[..|sent|] == Diffs(sent);
  }

  /** The client is documented to produce every valid diff it applies, but diffs applied from the
      buffer are never sent, and neither is one whose send raises. For a stream of increasing ids, and
      however the session ends, every applied diff is produced exactly when no buffered diff is newer
      than the snapshot and no send raises on a new diff. */
  lemma {:induction false} EveryAppliedDiffProducedIff(symbol: string, feed: Feed)
    requires LiveStart(feed).Some?
    requires IdsIncrease(SessionDiffs(symbol, feed))
    ensures var s := StartOf(feed.snapshot.value);
            (forall d :: d in AppliedDiffs(s, SessionDiffs(symbol, feed)) ==>
                         d in Diffs(SessionProduced(symbol, feed)))
            <==> (forall d :: d in BufferOf(feed.buffered) ==> d.last <= s.last) && !LosesNewDiff(symbol, feed)
  {
    var s, all := StartOf(feed.snapshot.value), SessionDiffs(symbol, feed);
    var buffer, messages := BufferOf(feed.buffered), MessagesOf(symbol, feed.live);
    var sent := Diffs(SessionProduced(symbol, feed));
    var k := match Run(s, all).gapAt case Some(k) => k case None => |all|;
    SessionCut(symbol, feed);
    SnapshotTimingDoesNotMatter(s, buffer, Diffs(Reached(messages, feed.sendFailsAt)));
    forall d ensures d in AppliedDiffs(s, all) <==> d in all[..k] && d.last > s.last {
      AppliedIff(s, all, d);
    }
    hide Run, AppliedDiffs, SessionProduced, SessionDiffs, BufferOf, MessagesOf, Diffs;
    assert all[..|all|] == all;
    DisjointParts(all, buffer, sent);
    forall d | d in buffer ensures d in all[..k] && d !in sent {
    }
  }

  /** With increasing ids the buffer, what was sent, and a diff behind both have nothing in common. */
  lemma {:induction false} DisjointParts(all: seq<DepthEvent>, buffer: seq<DepthEvent>, sent: seq<DepthEvent>)
    requires IdsIncrease(all) && buffer + sent <= all
    ensures forall d :: d in buffer ==> d !in sent
    ensures |buffer + sent| < |all| ==> all[|buffer + sent|] !in sent
  {
    assert forall i :: 0 <= i < |buffer| ==> buffer[i] == all[i];
    assert forall j :: 0 <= j < |sent| ==> sent[j] == all[|buffer| + j];
  }

  // ---- The reconnect loop ----

  /** maxRetries + 1 failures in a row end at session i. */
  ghost predicate StreakEndsAt(maxRetries: nat, succeeds: seq<bool>, i: nat)
    requires i < |succeeds|
  {
    i >= maxRetries && forall j :: i - maxRetries <= j <= i ==> !succeeds[j]
  }

  /** The failures at the end of the list. */
  function TrailingFailures(succeeds: seq<bool>): (k: nat)
    ensures k <= |succeeds|
    ensures forall j :: |succeeds| - k <= j < |succeeds| ==> !succeeds[j]
    ensures k < |succeeds| ==> succeeds[|succeeds| - 1 - k]
  {
    if succeeds == [] || succeeds[|succeeds| - 1] then 0
    else
      var n := |succeeds| - 1;
      assert forall j :: 0 <= j < n ==> succeeds[j] == succeeds[..n][j];
      1 + TrailingFailures(succeeds[..n])
  }

  /** The loop gives up at exactly the first failure that ends maxRetries + 1 consecutive ones; until
      then its counter is the length of the current streak. */
  lemma {:induction false} GivesUpExactly(maxRetries: nat, succeeds: seq<bool>)
    ensures var r := RunLoop(maxRetries, succeeds);
            (r.raisedAt.None? <==> forall i :: 0 <= i < |succeeds| ==> !StreakEndsAt(maxRetries, succeeds, i))
            && (r.raisedAt.None? ==> r.retries == TrailingFailures(succeeds) <= maxRetries)
            && (r.raisedAt.Some? ==>
                  r.raisedAt.value < |succeeds| && StreakEndsAt(maxRetries, succeeds, r.raisedAt.value)
                  && forall i :: 0 <= i < r.raisedAt.value ==> !StreakEndsAt(maxRetries, succeeds, i))
  {
    if succeeds != [] {
      var n := |succeeds| - 1;
      var front := succeeds[..n];
      GivesUpExactly(maxRetries, front);
      forall i | 0 <= i < n
        ensures StreakEndsAt(maxRetries, front, i) <==> StreakEndsAt(maxRetries, succeeds, i)
      {
        assert forall j :: 0 <= j < n ==> front[j] == succeeds[j];
      }
      if RunLoop(maxRetries, front).raisedAt.None? {
        var k := TrailingFailures(succeeds);
        assert StreakEndsAt(maxRetries, succeeds, n) <==> k > maxRetries;
      }
    }
  }

  /** The sleeps of one streak of k failures. */
  function StreakSleeps(k: nat): (s: seq<real>)
    ensures |s| == k
  {
    if k == 0 then [] else StreakSleeps(k - 1) + [Backoff(k)]
  }

  function Total(s: seq<real>): real {
    if s == [] then 0.0 else Total(s[..|s| - 1]) + s[|s| - 1]
  }

  /** The current streak slept exactly the backoff of each of its failures, in order. */
  lemma {:induction false} CurrentStreakSleeps(maxRetries: nat, succeeds: seq<bool>)
    requires RunLoop(maxRetries, succeeds).raisedAt.None?
    ensures var r := RunLoop(maxRetries, succeeds);
            |r.sleeps| >= r.retries && r.sleeps[|r.sleeps| - r.retries..] == StreakSleeps(r.retries)
  {
    if succeeds != [] {
      CurrentStreakSleeps(maxRetries, succeeds[..|succeeds| - 1]);
    }
  }

  /** The sleeps of a loop that never gives up: a success sleeps nothing, and a failure the backoff of its
      place in the streak it belongs to. */
  function Sleeps(succeeds: seq<bool>): seq<real> {
    if succeeds == [] then []
    else
      var n := |succeeds| - 1;
      Sleeps(succeeds[..n]) + if succeeds[n] then [] else [Backoff(TrailingFailures(succeeds))]
  }

  /** All sleeps of the loop are those up to the session whose exception is raised again, which itself
      sleeps nothing. */
  lemma {:induction false} AllSleeps(maxRetries: nat, succeeds: seq<bool>)
    ensures var r := RunLoop(maxRetries, succeeds);
            (r.raisedAt.Some? ==> r.raisedAt.value < |succeeds|)
            && r.sleeps == Sleeps(if r.raisedAt.Some? then succeeds[..r.raisedAt.value] else succeeds)
  {
    if succeeds != [] {
      var n := |succeeds| - 1;
      var front := succeeds[..n];
      AllSleeps(maxRetries, front);
      GivesUpExactly(maxRetries, front);
      hide StreakEndsAt, Backoff;
      var before := RunLoop(maxRetries, front);
      if before.raisedAt.Some? {
        assert front[..before.raisedAt.value] == succeeds[..before.raisedAt.value];
      } else if !succeeds[n] {
        assert TrailingFailures(succeeds) == before.retries + 1;
      }
    }
  }

  lemma {:induction false} SleepsAppend(a: seq<bool>, ok: bool)
    ensures Sleeps(a + [ok]) == Sleeps(a) + if ok then [] else [Backoff(TrailingFailures(a + [ok]))]
  {
    assert (a + [ok])[..|a|] == a;
  }

  /** A success starts the sleeps anew, so they are those of all streaks, one after the other. */
  lemma {:induction false} SleepsStartAnew(a: seq<bool>, b: seq<bool>)
    ensures Sleeps(a + [true] + b) == Sleeps(a) + Sleeps(b)
    decreases |b|
  {
    if b == [] {
      SleepsAppend(a, true);
      assert a + [true] + b == a + [true];
    } else {
      var n := |b| - 1;
      SleepsStartAnew(a, b[..n]);
      assert b == b[..n] + [b[n]];
      SleepsGoOn(a, b[..n], b[n]);
    }
  }

  lemma {:induction false} SleepsGoOn(a: seq<bool>, b: seq<bool>, ok: bool)
    requires Sleeps(a + [true] + b) == Sleeps(a) + Sleeps(b)
    ensures Sleeps(a + [true] + (b + [ok])) == Sleeps(a) + Sleeps(b + [ok])
  {
    hide Sleeps, TrailingFailures, Backoff;
    var front := a + [true];
    SleepsAppend(front + b, ok);
    SleepsAppend(b, ok);
    assert front + (b + [ok]) == front + b + [ok];
    StreakIsLocal(front, b + [ok]);
  }

  lemma {:induction false} StreakIsLocal(a: seq<bool>, b: seq<bool>)
    requires a != [] && a[|a| - 1]
    ensures TrailingFailures(a + b) == TrailingFailures(b)
  {
    if b != [] {
      assert (a + b)[..|a + b| - 1] == a + b[..|b| - 1];
      StreakIsLocal(a, b[..|b| - 1]);
    } else {
      assert a + b == a;
    }
  }

  /** One streak sleeps the backoff of each of its failures. */
  lemma {:induction false} SleepsOfStreak(succeeds: seq<bool>)
    requires forall i :: 0 <= i < |succeeds| ==> !succeeds[i]
    ensures Sleeps(succeeds) == StreakSleeps(|succeeds|)
  {
    if succeeds != [] {
      SleepsOfStreak(succeeds[..|succeeds| - 1]);
      assert TrailingFailures(succeeds) == |succeeds|;
    }
  }

  /** The first wait is two seconds, and each further one doubles until the cap of 60. */
  lemma {:induction false} BackoffDoubles(k: nat)
    ensures Backoff(1) == 2.0
    ensures Backoff(k + 1) == if 2.0 * Backoff(k) < 60.0 then 2.0 * Backoff(k) else 60.0
    ensures Backoff(k) <= Backoff(k + 1) <= 60.0
    ensures Backoff(k) <= Pow2(k) as real
  {
  }

  /** Within a streak the sleeps never shrink and none exceeds 60 seconds. */
  lemma {:induction false} StreakSleepsGrow(k: nat)
    ensures forall i :: 0 <= i < k ==> 2.0 <= StreakSleeps(k)[i] <= 60.0
    ensures forall i, j :: 0 <= i < j < k ==> StreakSleeps(k)[i] <= StreakSleeps(k)[j]
    ensures k > 0 ==> StreakSleeps(k)[k - 1] == Backoff(k)
  {
    if k > 0 {
      StreakSleepsGrow(k - 1);
      BackoffDoubles(k - 1);
      BackoffDoubles(k);
      assert Pow2(k) == 2 * Pow2(k - 1);
    }
  }

  /** The sleeps of k failures in a row last at most 2^(k+1) - 2 seconds and at most 60k seconds. */
  lemma {:induction false} StreakSleepTotal(k: nat)
    ensures Total(StreakSleeps(k)) <= (Pow2(k + 1) - 2) as real
    ensures Total(StreakSleeps(k)) <= 60.0 * k as real
  {
    if k > 0 {
      StreakSleepTotal(k - 1);
      BackoffDoubles(k);
      assert StreakSleeps(k)[..k - 1] == StreakSleeps(k - 1);
      assert Pow2(k + 1) == 2 * Pow2(k);
    }
  }

  lemma {:induction false} BackoffValues(k: nat)
    ensures k <= 5 ==> Backoff(k) == Pow2(k) as real
    ensures k >= 6 ==> Backoff(k) == 60.0
  {
    PowersUpTo6();
    if k >= 6 {
      Pow2Grows(6, k);
    } else {
      Pow2Grows(k, 5);
    }
  }

  lemma {:induction false} PowersUpTo6()
    ensures Pow2(5) == 32 && Pow2(6) == 64
  {
  }

  lemma {:induction false} Pow2Grows(j: nat, k: nat)
    requires j <= k
    ensures Pow2(j) <= Pow2(k)
  {
    if j < k {
      Pow2Grows(j, k - 1);
    }
  }

  /** Exactly: 2 + 4 + ... + 2^k seconds for up to five failures, and 60 more for each further one. */
  lemma {:induction false} StreakSleepTotalExact(k: nat)
    ensures Total(StreakSleeps(k)) == if k <= 5 then (Pow2(k + 1) - 2) as real else 62.0 + 60.0 * (k - 5) as real
  {
    PowersUpTo6();
    if k > 0 {
      StreakSleepTotalExact(k - 1);
      BackoffValues(k);
      assert StreakSleeps(k)[..k - 1] == StreakSleeps(k - 1);
      assert Pow2(k + 1) == 2 * Pow2(k);
    }
  }
}
