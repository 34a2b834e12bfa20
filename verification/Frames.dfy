/** The LLRP receive loop: `LLRPReceiver.consume` of app/llrp.py over a stream of bytes. */
module Frames {
  import opened Wrappers
  import opened Bytes
  import opened Sequences
  import opened Rfid
  import opened Reports

  const KEEPALIVE: nat := 62
  const KEEPALIVE_ACK: nat := 72
  const MAX_FRAME_LENGTH: nat := 65_536

  /** What the loop does, in order: write an acknowledgement, or hand an event on. */
  datatype Action = Ack(frame: seq<byte>) | Deliver(event: TagEvent)

  /**
   * Why the loop ends: the stream is over, or an exception, because a header declares an
   * impossible length or a report holds a timestamp that cannot be converted.
   */
  datatype End = Closed | InvalidLength(length: nat) | BadReport(error: ReportError)

  datatype Trace = Trace(actions: seq<Action>, end: End)

  function Deliveries(events: seq<TagEvent>): (actions: seq<Action>)
    ensures |actions| == |events|
  {
    seq(|events|, i requires 0 <= i < |events| => Deliver(events[i]))
  }

  /** What one whole frame makes the loop do. */
  function FrameActions(frame: seq<byte>, readerId: int, host: Address): seq<Action>
    requires |frame| >= 10
  {
    if MessageType(frame) == Some(KEEPALIVE) then [Ack(BuildMessage(KEEPALIVE_ACK, MessageId(frame).value, []))]
    else Deliveries(FrameEvents(frame, readerId, host))
  }

  /** The length in the header at the start of the stream. */
  function Declared(stream: seq<byte>): nat
    requires |stream| >= 10
  {
    U32(stream[2..6])
  }

  function Consumed(stream: seq<byte>, readerId: int, host: Address): Trace
    decreases |stream|
  {
    if |stream| < 10 then Trace([], Closed)
    else
      var length := Declared(stream);
      if length < 10 || length > MAX_FRAME_LENGTH then Trace([], InvalidLength(length))
      else if |stream| < length then Trace([], Closed)
      else if FrameFails(stream[..length]) then Trace([], BadReport(TimestampOutOfRange))
      else
        var rest := Consumed(stream[length..], readerId, host);
        Trace(FrameActions(stream[..length], readerId, host) + rest.actions, rest.end)
  }

  /** The length that a header declares, byte by byte. */
  function DeclaredBytes(stream: seq<byte>): int
    requires |stream| >= 10
  {
    0x100_0000 * (stream[2] as int) + 0x1_0000 * (stream[3] as int) + 0x100 * (stream[4] as int) + stream[5] as int
  }

  /**
   * The loop, turn by turn: it ends before a frame with too few bytes or an impossible length, ends
   * at a report that it cannot parse, and else goes on after the frame.
   */
  lemma LoopExactly(stream: seq<byte>, readerId: int, host: Address)
    ensures |stream| < 10 ==> Consumed(stream, readerId, host) == Trace([], Closed)
    ensures |stream| >= 10 ==>
              var n := DeclaredBytes(stream);
              if n < 10 || n > 65_536 then Consumed(stream, readerId, host) == Trace([], InvalidLength(n))
              else if |stream| < n then Consumed(stream, readerId, host) == Trace([], Closed)
              else if FrameFails(stream[..n]) then
                Consumed(stream, readerId, host) == Trace([], BadReport(TimestampOutOfRange))
              else
                var rest := Consumed(stream[n..], readerId, host);
                Consumed(stream, readerId, host) ==
                Trace(FrameActions(stream[..n], readerId, host) + rest.actions, rest.end)
  {
    if |stream| >= 10 {
      BigEndian(stream[2..6]);
      assert Declared(stream) == DeclaredBytes(stream);
    }
  }

  lemma IdBytes(a: byte, b: byte, c: byte, d: byte, n: nat)
    requires n == 0x100_0000 * (a as int) + 0x1_0000 * (b as int) + 0x100 * (c as int) + d as int
    ensures n / 0x100_0000 == a as int && n / 0x1_0000 % 256 == b as int
    ensures n / 256 % 256 == c as int && n % 256 == d as int
  {
    var high, low := 256 * (a as int) + b as int, 256 * (c as int) + d as int;
    assert n == 0x1_0000 * high + low && n / 0x1_0000 == high;
    HighBytes(high, low);
  }

  lemma ReplyBytes(a: byte, b: byte, c: byte, d: byte, id: nat)
    requires id == 0x100_0000 * (a as int) + 0x1_0000 * (b as int) + 0x100 * (c as int) + d as int
    ensures id < 0x1_0000_0000 && BuildMessage(72, id, []) == [4, 72, 0, 0, 0, 10, a, b, c, d]
  {
    MessageBytes(72, id, []);
    IdBytes(a, b, c, d, id);
    AppendNothing([4, 72, 0, 0, 0, 10, a, b, c, d]);
  }

  /** A KEEPALIVE, byte by byte, and the reply: types 62 and 72. */
  lemma KeepaliveExactly(frame: seq<byte>, readerId: int, host: Address)
    requires |frame| >= 10 && (frame[0] as int) % 4 * 256 + frame[1] as int == 62
    ensures FrameActions(frame, readerId, host) ==
            [Ack([4, 72, 0, 0, 0, 10, frame[6], frame[7], frame[8], frame[9]])]
    ensures !FrameFails(frame)
  {
    HeaderBytes(frame);
    ReplyBytes(frame[6], frame[7], frame[8], frame[9], MessageId(frame).value);
  }

  /** Any other frame is handed on, event by event, or ends the loop. */
  lemma OthersExactly(frame: seq<byte>, readerId: int, host: Address)
    requires |frame| >= 10 && (frame[0] as int) % 4 * 256 + frame[1] as int != 62
    ensures |FrameActions(frame, readerId, host)| == |FrameEvents(frame, readerId, host)|
    ensures forall i :: 0 <= i < |FrameEvents(frame, readerId, host)| ==>
              FrameActions(frame, readerId, host)[i] == Deliver(FrameEvents(frame, readerId, host)[i])
  {
    HeaderBytes(frame);
  }

  // ----- streams as frames -----

  /** A frame as a reader sends it: within the size limits and declaring its own length. */
  predicate IsFrame(frame: seq<byte>) {
    10 <= |frame| <= MAX_FRAME_LENGTH && Declared(frame) == |frame|
  }

  /** Frames that the loop gets past. */
  predicate AllFrames(frames: seq<seq<byte>>) {
    forall i :: 0 <= i < |frames| ==> IsFrame(frames[i]) && !FrameFails(frames[i])
  }

  function Joined(frames: seq<seq<byte>>): seq<byte> {
    if frames == [] then [] else frames[0] + Joined(frames[1..])
  }

  /** All the actions of a list of frames, one frame after the other. */
  function AllActions(frames: seq<seq<byte>>, readerId: int, host: Address): seq<Action>
    requires AllFrames(frames)
  {
    if frames == [] then []
    else FrameActions(frames[0], readerId, host) + AllActions(frames[1..], readerId, host)
  }

  /** The loop ends here: too few bytes, an impossible declared length, or a frame it cannot parse. */
  predicate Stuck(tail: seq<byte>) {
    || |tail| < 10
    || Declared(tail) < 10
    || Declared(tail) > MAX_FRAME_LENGTH
    || |tail| < Declared(tail)
    || FrameFails(tail[..Declared(tail)])
  }

  function EndOf(tail: seq<byte>): End
    requires Stuck(tail)
  {
    if |tail| < 10 then Closed
    else if Declared(tail) < 10 || Declared(tail) > MAX_FRAME_LENGTH then InvalidLength(Declared(tail))
    else if |tail| < Declared(tail) then Closed
    else BadReport(TimestampOutOfRange)
  }

  lemma FrameFirst(frame: seq<byte>, more: seq<byte>, readerId: int, host: Address)
    requires IsFrame(frame) && !FrameFails(frame)
    ensures var rest := Consumed(more, readerId, host);
            Consumed(frame + more, readerId, host) ==
            Trace(FrameActions(frame, readerId, host) + rest.actions, rest.end)
  {
    var stream := frame + more;
    assert stream[2..6] == frame[2..6];
    assert stream[..|frame|] == frame && stream[|frame|..] == more;
  }

  lemma {:induction false} FramesFirst(frames: seq<seq<byte>>, more: seq<byte>, readerId: int, host: Address)
    requires AllFrames(frames)
    ensures var rest := Consumed(more, readerId, host);
            Consumed(Joined(frames) + more, readerId, host) ==
            Trace(AllActions(frames, readerId, host) + rest.actions, rest.end)
  {
    var rest := Consumed(more, readerId, host);
    if frames == [] {
      assert Joined(frames) + more == more;
      assert [] + rest.actions == rest.actions;
    } else {
      var f, fs := frames[0], frames[1..];
      FramesFirst(fs, more, readerId, host);
      Associate(f, Joined(fs), more);
      FrameFirst(f, Joined(fs) + more, readerId, host);
      Associate(FrameActions(f, readerId, host), AllActions(fs, readerId, host), rest.actions);
    }
  }

  /**
   * The loop on whole frames followed by a tail that starts with none it can parse: exactly the
   * actions of the frames, in order, nothing for the tail, and the end the tail calls for.
   */
  lemma FramesAreConsumed(frames: seq<seq<byte>>, tail: seq<byte>, readerId: int, host: Address)
    requires AllFrames(frames) && Stuck(tail)
    ensures Consumed(Joined(frames) + tail, readerId, host) == Trace(AllActions(frames, readerId, host), EndOf(tail))
  {
    FramesFirst(frames, tail, readerId, host);
    assert Consumed(tail, readerId, host) == Trace([], EndOf(tail));
    assert AllActions(frames, readerId, host) + [] == AllActions(frames, readerId, host);
  }

  /** Every stream is whole frames and a stuck tail, so the previous result covers all streams. */
  lemma {:induction false} EveryStreamIsFrames(stream: seq<byte>) returns (frames: seq<seq<byte>>, tail: seq<byte>)
    ensures AllFrames(frames) && Stuck(tail) && stream == Joined(frames) + tail
    decreases |stream|
  {
    if Stuck(stream) {
      frames, tail := [], stream;
      assert [] + stream == stream;
    } else {
      var n := Declared(stream);
      var f, fs := stream[..n], [];
      fs, tail := EveryStreamIsFrames(stream[n..]);
      assert f[2..6] == stream[2..6];
      frames := [f] + fs;
      assert frames[1..] == fs;
      Split(stream, n);
      Associate(f, Joined(fs), tail);
    }
  }

  /** More bytes only add actions: the trace of a stream cut short is a prefix of the whole. */
  lemma CutStreamIsAPrefix(stream: seq<byte>, n: nat, readerId: int, host: Address)
    requires n <= |stream|
    ensures Consumed(stream[..n], readerId, host).actions <= Consumed(stream, readerId, host).actions
  {
    var frames, tail := EveryStreamIsFrames(stream[..n]);
    FramesAreConsumed(frames, tail, readerId, host);
    Split(stream, n);
    Associate(Joined(frames), tail, stream[n..]);
    FramesFirst(frames, tail + stream[n..], readerId, host);
  }

  // ----- acknowledgements -----

  function KeepaliveIds(frames: seq<seq<byte>>): seq<nat>
    requires AllFrames(frames)
  {
    if frames == [] then []
    else
      (if MessageType(frames[0]) == Some(KEEPALIVE) then [MessageId(frames[0]).value] else [])
      + KeepaliveIds(frames[1..])
  }

  function AckFrames(actions: seq<Action>): seq<seq<byte>> {
    if actions == [] then []
    else (if actions[0].Ack? then [actions[0].frame] else []) + AckFrames(actions[1..])
  }

  function Events(actions: seq<Action>): seq<TagEvent> {
    if actions == [] then []
    else (if actions[0].Deliver? then [actions[0].event] else []) + Events(actions[1..])
  }

  lemma HeadActions(a: seq<Action>)
    requires a != []
    ensures AckFrames(a) == AckFrames([a[0]]) + AckFrames(a[1..])
    ensures Events(a) == Events([a[0]]) + Events(a[1..])
  {
    assert [a[0]][1..] == [];
    AppendNothing(if a[0].Ack? then [a[0].frame] else []);
    AppendNothing(if a[0].Deliver? then [a[0].event] else []);
  }

  lemma {:induction false} ActionsAppend(a: seq<Action>, b: seq<Action>)
    ensures AckFrames(a + b) == AckFrames(a) + AckFrames(b)
    ensures Events(a + b) == Events(a) + Events(b)
  {
    if a == [] {
      AppendNothing(b);
      AppendNothing(AckFrames(b));
      AppendNothing(Events(b));
    } else {
      TailOfAppend(a, b);
      ActionsAppend(a[1..], b);
      Associate(AckFrames([a[0]]), AckFrames(a[1..]), AckFrames(b));
      Associate(Events([a[0]]), Events(a[1..]), Events(b));
      HeadActions(a);
      HeadActions(a + b);
    }
  }

  lemma {:induction false} DeliveriesOnly(events: seq<TagEvent>)
    ensures AckFrames(Deliveries(events)) == []
    ensures Events(Deliveries(events)) == events
  {
    if events != [] {
      assert Deliveries(events)[1..] == Deliveries(events[1..]);
      DeliveriesOnly(events[1..]);
    }
  }

  /** The reply to a KEEPALIVE: ten bytes, type 72, the same message id. */
  predicate Acknowledges(ack: seq<byte>, messageId: nat) {
    IsFrame(ack) && |ack| == 10 && MessageType(ack) == Some(KEEPALIVE_ACK) && MessageId(ack) == Some(messageId)
  }

  /** The acknowledgements answer the message ids, one each, in order. */
  ghost predicate AcknowledgeAll(acks: seq<seq<byte>>, ids: seq<nat>) {
    |acks| == |ids| && forall i :: 0 <= i < |acks| ==> Acknowledges(acks[i], ids[i])
  }

  lemma AcknowledgeAppend(acks: seq<seq<byte>>, ids: seq<nat>, acks': seq<seq<byte>>, ids': seq<nat>)
    requires AcknowledgeAll(acks, ids) && AcknowledgeAll(acks', ids')
    ensures AcknowledgeAll(acks + acks', ids + ids')
  {
  }

  function ReportedEvents(frames: seq<seq<byte>>, readerId: int, host: Address): seq<TagEvent> {
    if frames == [] then [] else FrameEvents(frames[0], readerId, host) + ReportedEvents(frames[1..], readerId, host)
  }

  lemma OneFrame(frame: seq<byte>, readerId: int, host: Address)
    requires IsFrame(frame)
    ensures Events(FrameActions(frame, readerId, host)) == FrameEvents(frame, readerId, host)
    ensures var acks := AckFrames(FrameActions(frame, readerId, host));
            if MessageType(frame) == Some(KEEPALIVE)
            then |acks| == 1 && Acknowledges(acks[0], MessageId(frame).value)
            else acks == []
  {
    if MessageType(frame) == Some(KEEPALIVE) {
      MessageRoundTrip(KEEPALIVE_ACK, MessageId(frame).value, []);
    } else {
      DeliveriesOnly(FrameEvents(frame, readerId, host));
    }
  }

  /**
   * One acknowledgement per KEEPALIVE, in order and with its message id, and no other writes; the
   * events handed on are those of the other frames, in order.
   */
  lemma {:induction false} KeepalivesAreAcknowledged(frames: seq<seq<byte>>, readerId: int, host: Address)
    requires AllFrames(frames)
    ensures AcknowledgeAll(AckFrames(AllActions(frames, readerId, host)), KeepaliveIds(frames))
    ensures Events(AllActions(frames, readerId, host)) == ReportedEvents(frames, readerId, host)
  {
    if frames != [] {
      var f, fs := frames[0], frames[1..];
      KeepalivesAreAcknowledged(fs, readerId, host);
      ActionsAppend(FrameActions(f, readerId, host), AllActions(fs, readerId, host));
      OneFrame(f, readerId, host);
      AcknowledgeAppend(AckFrames(FrameActions(f, readerId, host)),
                        if MessageType(f) == Some(KEEPALIVE) then [MessageId(f).value] else [],
                        AckFrames(AllActions(fs, readerId, host)), KeepaliveIds(fs));
    }
  }

  // ----- the reads handed on -----

  /** Events stamped with consecutive readings of the receiver's clock. */
  function Stamp(events: seq<TagEvent>, clock: nat -> int, first: nat): (h: seq<Stamped>)
    ensures |h| == |events|
  {
    seq(|events|, i requires 0 <= i < |events| => Stamped(events[i], clock(first + i)))
  }

  /** The reads handed on for stamped events, each the trailing session of its key so far. */
  function Aggregated(before: seq<Stamped>, recent: seq<Stamped>, window: int): seq<AggregatedTagRead> {
    if recent == [] then []
    else
      var all := before + recent;
      Aggregated(before, Front(recent), window) + [Trailing(Of(all, KeyOf(Last(recent).event)), window)]
  }

  lemma {:induction false} AggregatedGrows(
    before: seq<Stamped>, recent: seq<Stamped>, more: seq<Stamped>, all: seq<Stamped>, window: int)
    requires all == recent + more
    ensures Aggregated(before, recent, window) <= Aggregated(before, all, window)
  {
    if more == [] {
      AppendNothing(recent);
    } else {
      FrontOfAppend(recent, more);
      AggregatedGrows(before, recent, Front(more), Front(all), window);
    }
  }

  lemma StampGrows(events: seq<TagEvent>, more: seq<TagEvent>, clock: nat -> int, first: nat)
    ensures Stamp(events + more, clock, first) == Stamp(events, clock, first) + Stamp(more, clock, first + |events|)
  {
  }

  lemma EventsGrow(cut: seq<Action>, whole: seq<Action>) returns (more: seq<TagEvent>)
    requires cut <= whole
    ensures Events(whole) == Events(cut) + more
  {
    assert whole == cut + whole[|cut|..];
    ActionsAppend(cut, whole[|cut|..]);
    more := Events(whole[|cut|..]);
  }

  lemma ReadsGrow(
    events: seq<TagEvent>, more: seq<TagEvent>, before: seq<Stamped>, clock: nat -> int, window: int)
    ensures Aggregated(before, Stamp(events, clock, 0), window) <=
            Aggregated(before, Stamp(events + more, clock, 0), window)
  {
    StampGrows(events, more, clock, 0);
    AggregatedGrows(before, Stamp(events, clock, 0), Stamp(more, clock, |events|), Stamp(events + more, clock, 0),
                    window);
  }

  /** The reads handed on for a stream cut short are the first of those for the whole. */
  lemma CutStreamReadsAreAPrefix(
    stream: seq<byte>, n: nat, readerId: int, host: Address, before: seq<Stamped>, clock: nat -> int, window: int)
    requires n <= |stream|
    ensures var cut, whole := Consumed(stream[..n], readerId, host), Consumed(stream, readerId, host);
            Aggregated(before, Stamp(Events(cut.actions), clock, 0), window) <=
            Aggregated(before, Stamp(Events(whole.actions), clock, 0), window)
  {
    CutStreamIsAPrefix(stream, n, readerId, host);
    var cut, whole := Consumed(stream[..n], readerId, host).actions, Consumed(stream, readerId, host).actions;
    var more := EventsGrow(cut, whole);
    ReadsGrow(Events(cut), more, before, clock, window);
  }

  // ----- loop invariants of the receiver -----

  ghost predicate Consuming(stream: seq<byte>, position: nat, done: seq<Action>, readerId: int, host: Address) {
    && position <= |stream|
    && var rest := Consumed(stream[position..], readerId, host);
       Consumed(stream, readerId, host) == Trace(done + rest.actions, rest.end)
  }

  lemma StartConsuming(stream: seq<byte>, readerId: int, host: Address)
    ensures Consuming(stream, 0, [], readerId, host)
  {
    assert stream[0..] == stream;
    assert [] + Consumed(stream, readerId, host).actions == Consumed(stream, readerId, host).actions;
  }

  lemma StopConsuming(stream: seq<byte>, position: nat, done: seq<Action>, end: End,
      readerId: int, host: Address)
    requires Consuming(stream, position, done, readerId, host)
    requires Stuck(stream[position..]) && EndOf(stream[position..]) == end
    ensures Consumed(stream, readerId, host) == Trace(done, end)
  {
    assert done + [] == done;
  }

  lemma FailingFrameIsStuck(left: seq<byte>, frame: seq<byte>)
    requires IsFrame(frame) && frame <= left && FrameFails(frame)
    ensures Stuck(left) && EndOf(left) == BadReport(TimestampOutOfRange)
  {
    assert left[2..6] == frame[2..6];
    assert left[..|frame|] == frame;
  }

  lemma ConsumeOne(stream: seq<byte>, position: nat, done: seq<Action>, frame: seq<byte>,
                   next: nat, longer: seq<Action>, readerId: int, host: Address)
    requires Consuming(stream, position, done, readerId, host)
    requires IsFrame(frame) && !FrameFails(frame) && frame <= stream[position..]
    requires next == position + |frame| && longer == done + FrameActions(frame, readerId, host)
    ensures Consuming(stream, next, longer, readerId, host)
  {
    var left := stream[position..];
    var more := left[|frame|..];
    assert more == stream[next..];
    assert left == frame + more;
    FrameFirst(frame, more, readerId, host);
    Associate(done, FrameActions(frame, readerId, host), Consumed(more, readerId, host).actions);
  }

  lemma OneFrameEvents(done: seq<Action>, frame: seq<byte>, readerId: int, host: Address)
    requires |frame| >= 10
    ensures Events(done + FrameActions(frame, readerId, host)) ==
            if MessageType(frame) == Some(KEEPALIVE) then Events(done)
            else Events(done) + FrameEvents(frame, readerId, host)
  {
    ActionsAppend(done, FrameActions(frame, readerId, host));
    if MessageType(frame) == Some(KEEPALIVE) {
      assert Events(FrameActions(frame, readerId, host)) == [];
      assert Events(done) + [] == Events(done);
    } else {
      DeliveriesOnly(FrameEvents(frame, readerId, host));
    }
  }

  /** The events so far are in the aggregator's history and their reads are handed on. */
  ghost predicate Handed(start: seq<Stamped>, history: seq<Stamped>, events: seq<TagEvent>, clock: nat -> int,
                         delivered: seq<AggregatedTagRead>, window: int)
  {
    && history == start + Stamp(events, clock, 0)
    && delivered == Aggregated(start, Stamp(events, clock, 0), window)
    && |delivered| == |events|
  }

  lemma HandOne(start: seq<Stamped>, history: seq<Stamped>, events: seq<TagEvent>,
      event: TagEvent, clock: nat -> int,
                delivered: seq<AggregatedTagRead>, window: int)
    requires Handed(start, history, events, clock, delivered, window)
    ensures var longer := history + [Stamped(event, clock(|delivered|))];
            var more := delivered + [Trailing(Of(longer, KeyOf(event)), window)];
            Handed(start, longer, events + [event], clock, more, window)
  {
    var before, after := Stamp(events, clock, 0), Stamp(events + [event], clock, 0);
    assert after == before + [Stamped(event, clock(|events|))];
    assert Front(after) == before;
    Associate(start, before, [Stamped(event, clock(|events|))]);
  }

  // ----- the receiver -----

  class LLRPReceiver {
    const readerId: int
    const host: Address
    const aggregator: DuplicateAggregator

    constructor (host: Address, readerId: int, window: int)
      ensures this.host == host && this.readerId == readerId
      ensures fresh(aggregator) && aggregator.Valid() && aggregator.history == [] && aggregator.window == window
    {
      this.host, this.readerId := host, readerId;
      this.aggregator := new DuplicateAggregator(window);
    }

    /**
     * Reads frames to the end of the stream. `clock(n)` is the time of the n-th event; `trace`
     * is what was written and handed on, in order, and `delivered` the aggregated reads.
     */
    method Consume(stream: seq<byte>, clock: nat -> int)
      returns (trace: seq<Action>, delivered: seq<AggregatedTagRead>, end: End)
      requires aggregator.Valid()
      modifies aggregator
      ensures aggregator.Valid()
      ensures Trace(trace, end) == Consumed(stream, readerId, host)
      ensures aggregator.history == old(aggregator.history) + Stamp(Events(trace), clock, 0)
      ensures delivered == Aggregated(old(aggregator.history), Stamp(Events(trace), clock, 0), aggregator.window)
    {
      trace, delivered := [], [];
      var position := 0;
      ghost var start := aggregator.history;
      StartConsuming(stream, readerId, host);
      while true
        invariant Consuming(stream, position, trace, readerId, host)
        invariant aggregator.Valid()
        invariant Handed(start, aggregator.history, Events(trace), clock, delivered, aggregator.window)
        decreases |stream| - position
      {
        var next := ReadFrame(stream, position);
        if next.Err? {
          StopConsuming(stream, position, trace, next.error, readerId, host);
          return trace, delivered, next.error;
        }
        ghost var before, done := position, trace;
        var failure;
        trace, delivered, failure := HandleFrame(next.value, clock, trace, delivered, start);
        if failure.Some? {
          FailingFrameIsStuck(stream[position..], next.value);
          StopConsuming(stream, position, trace, BadReport(failure.value), readerId, host);
          return trace, delivered, BadReport(failure.value);
        }
        position := position + |next.value|;
        ConsumeOne(stream, before, done, next.value, position, trace, readerId, host);
      }
    }

    /** The two exact reads of the loop: a header of ten bytes, then the rest of its frame. */
    method ReadFrame(stream: seq<byte>, position: nat) returns (r: Result<seq<byte>, End>)
      requires position <= |stream|
      ensures r.Ok? ==> IsFrame(r.value) && r.value <= stream[position..]
      ensures r.Err? ==> Stuck(stream[position..]) && EndOf(stream[position..]) == r.error && !r.error.BadReport?
    {
      ghost var left := stream[position..];
      if position + 10 > |stream| {
        return Err(Closed);
      }
      var length := U32(stream[position + 2..position + 6]);
      assert left[2..6] == stream[position + 2..position + 6];
      if length < 10 || length > MAX_FRAME_LENGTH {
        return Err(InvalidLength(length));
      }
      if position + length > |stream| {
        return Err(Closed);
      }
      var frame := stream[position..position + length];
      assert frame == left[..length];
      assert frame[2..6] == left[2..6];
      return Ok(frame);
    }

    /**
     * One turn of the loop: acknowledge a KEEPALIVE, or hand on the events of a report. A report
     * that cannot be parsed gives none of its events.
     */
    method HandleFrame(frame: seq<byte>, clock: nat -> int, trace: seq<Action>, delivered: seq<AggregatedTagRead>,
                       ghost start: seq<Stamped>)
      returns (longer: seq<Action>, more: seq<AggregatedTagRead>, failure: Option<ReportError>)
      requires IsFrame(frame)
      requires aggregator.Valid()
      requires Handed(start, aggregator.history, Events(trace), clock, delivered, aggregator.window)
      modifies aggregator
      ensures failure == if FrameFails(frame) then Some(TimestampOutOfRange) else None
      ensures longer == if FrameFails(frame) then trace else trace + FrameActions(frame, readerId, host)
      ensures aggregator.Valid()
      ensures Handed(start, aggregator.history, Events(longer), clock, more, aggregator.window)
    {
      OneFrameEvents(trace, frame, readerId, host);
      failure := None;
      if MessageType(frame) == Some(KEEPALIVE) {
        longer := trace + [Ack(BuildMessage(KEEPALIVE_ACK, MessageId(frame).value, []))];
        more := delivered;
      } else {
        var r := ParseRoAccessReport(frame, readerId, host);
        if r.Err? {
          return trace, delivered, Some(r.error);
        }
        more := HandOn(r.value, Events(trace), clock, delivered, start);
        longer := trace + Deliveries(r.value);
      }
    }

    /** The inner loop: every event of a report goes through the aggregator and on to the handler. */
    method HandOn(events: seq<TagEvent>, ghost earlier: seq<TagEvent>, clock: nat -> int,
                  delivered: seq<AggregatedTagRead>, ghost start: seq<Stamped>)
      returns (all: seq<AggregatedTagRead>)
      requires aggregator.Valid()
      requires Handed(start, aggregator.history, earlier, clock, delivered, aggregator.window)
      modifies aggregator
      ensures aggregator.Valid()
      ensures Handed(start, aggregator.history, earlier + events, clock, all, aggregator.window)
    {
      all := delivered;
      ghost var handed := earlier;
      for i := 0 to |events|
        invariant aggregator.Valid()
        invariant handed + events[i..] == earlier + events
        invariant Handed(start, aggregator.history, handed, clock, all, aggregator.window)
      {
        HandOne(start, aggregator.history, handed, events[i], clock, all, aggregator.window);
        var read := aggregator.Process(events[i], clock(|all|));
        all := all + [read];
        Peel(events, i);
        Shift(earlier + events, handed, events[i], events[i..], events[i + 1..]);
        handed := handed + [events[i]];
      }
      assert handed == earlier + events;
    }
  }
}
