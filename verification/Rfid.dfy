/** Tag events and the in-memory duplicate aggregator of app/rfid.py. */
module Rfid {
  import opened Wrappers
  import opened Epc
  import opened Sequences
  import opened Sessions

  /** The fields of an event that no duplicate test looks at. Times are integer microseconds. */
  datatype Details = Details(
    rssi: Option<real>, phase: Option<real>, channel: Option<int>,
    direction: Option<string>, zone: Option<string>, location: Option<string>,
    gpsLatitude: Option<real>, gpsLongitude: Option<real>, gpsAltitude: Option<real>, gpsAccuracy: Option<real>,
    gpsTimestamp: Option<int>, readerTimestamp: Option<int>,
    rawPayload: string, extraData: Option<string>)

  /** Addresses of readers and clients: the column of the reader's address holds 45 characters. */
  type Address = s: string | |s| <= 45

  datatype TagEvent = TagEvent(readerId: int, epcHex: string, antenna: Option<int>, readerIp: Address, details: Details)

  datatype AggregatedTagRead = AggregatedTagRead(
    event: TagEvent, firstSeenAt: int, lastSeenAt: int, seenCount: nat, isDuplicate: bool)

  /** What makes two reads the same read: reader, EPC and antenna. */
  datatype Key = Key(readerId: int, epcHex: string, antenna: Option<int>)

  function KeyOf(event: TagEvent): Key {
    Key(event.readerId, event.epcHex, event.antenna)
  }

  // ----- JSON events -----

  /** A decoded JSON payload; None where a required member is missing or has the wrong type. */
  datatype SimulatorData = SimulatorData(readerId: Option<int>, epcHex: Option<string>, antenna: Option<int>,
      details: Details)

  datatype PayloadError = MissingField | InvalidEpc(error: EpcError)

  function ParseSimulatorEvent(data: SimulatorData, readerIp: Address): Result<TagEvent, PayloadError> {
    if data.readerId.None? || data.epcHex.None? then Err(MissingField)
    else
      match ParseEpc(data.epcHex.value)
      case Err(e) => Err(InvalidEpc(e))
      case Ok(epc) =>
        var details := data.details.(readerTimestamp := None);
        Ok(TagEvent(data.readerId.value, epc.hexValue, data.antenna, readerIp, details))
  }

  /** The key of an event is the key of the row it is stored under: normalising changes nothing. */
  predicate KeyCoherent(event: TagEvent) {
    NormalizeEpc(event.epcHex).Ok? ==> NormalizeEpc(event.epcHex).value == event.epcHex
  }

  /** An accepted JSON event carries canonical text, and every spelling of a tag gives one key. */
  lemma SimulatorEventsAreCoherent(data: SimulatorData, readerIp: Address)
    requires ParseSimulatorEvent(data, readerIp).Ok?
    ensures var event := ParseSimulatorEvent(data, readerIp).value;
            && Canonical(event.epcHex) && KeyCoherent(event)
            && NormalizeEpc(data.epcHex.value) == NormalizeEpc(event.epcHex) == Ok(event.epcHex)
  {
    NormalizeIsIdempotent(data.epcHex.value);
  }

  /**
   * What a payload becomes: refused without a reader or EPC, or with an EPC that is none, and else
   * the event with its values, the EPC in canonical text and no reader time.
   */
  lemma SimulatorEventExactly(data: SimulatorData, readerIp: Address)
    ensures ParseSimulatorEvent(data, readerIp) == Err(MissingField) <==> data.readerId.None? || data.epcHex.None?
    ensures data.readerId.Some? && data.epcHex.Some? ==>
              match ParseEpc(data.epcHex.value)
              case Err(e) => ParseSimulatorEvent(data, readerIp) == Err(InvalidEpc(e))
              case Ok(epc) =>
                var d := data.details;
                && NormalizeEpc(data.epcHex.value) == Ok(epc.hexValue)
                && ParseSimulatorEvent(data, readerIp) ==
                   Ok(TagEvent(data.readerId.value, epc.hexValue, data.antenna, readerIp,
                               Details(d.rssi, d.phase, d.channel, d.direction, d.zone, d.location, d.gpsLatitude,
                                       d.gpsLongitude, d.gpsAltitude, d.gpsAccuracy, d.gpsTimestamp, None,
                                       d.rawPayload, d.extraData)))
  {
  }

  // ----- histories -----

  /** An event with the time it was received. */
  datatype Stamped = Stamped(event: TagEvent, at: int)

  /** The part of a history that concerns one key. */
  function Of(history: seq<Stamped>, key: Key): (h: seq<Stamped>)
    ensures forall i :: 0 <= i < |h| ==> KeyOf(h[i].event) == key
  {
    if history == [] then []
    else if KeyOf(Last(history).event) == key then Of(Front(history), key) + [Last(history)]
    else Of(Front(history), key)
  }

  function Times(history: seq<Stamped>): (ts: seq<int>)
    ensures |ts| == |history|
  {
    seq(|history|, i requires 0 <= i < |history| => history[i].at)
  }

  /**
   * The read that stands for a key's history: the latest event, with the first time, last time
   * and length of the trailing session.
   */
  function Trailing(h: seq<Stamped>, window: int): AggregatedTagRead
    requires h != []
  {
    var run := Last(Runs(Times(h), window));
    AggregatedTagRead(Last(h).event, run[0], Last(run), |run|, |run| > 1)
  }

  /**
   * The read against the history, time by time: its count is the length of the longest tail whose
   * gaps are within the window, and it has the first and last times of that tail.
   */
  ghost predicate StandsForTail(a: AggregatedTagRead, h: seq<Stamped>, window: int) {
    && 1 <= a.seenCount <= |h|
    && a.event == h[|h| - 1].event && a.lastSeenAt == h[|h| - 1].at
    && a.firstSeenAt == h[|h| - a.seenCount].at
    && (forall i :: |h| - a.seenCount < i < |h| ==> h[i].at - h[i - 1].at <= window)
    && (a.seenCount < |h| ==> h[|h| - a.seenCount].at - h[|h| - a.seenCount - 1].at > window)
    && (a.isDuplicate <==> a.seenCount > 1)
  }

  lemma TrailingIsTail(h: seq<Stamped>, window: int)
    requires h != []
    ensures StandsForTail(Trailing(h, window), h, window)
  {
    var k := LastRunIsTail(Times(h), window);
    assert |Times(h)[k..]| == |h| - k;
    assert forall i :: 0 <= i < |h| ==> Times(h)[i] == h[i].at;
  }

  type Entries = map<Key, AggregatedTagRead>

  /** The aggregator holds, for every key seen, exactly the trailing session of that key. */
  ghost predicate Summarises(entries: Entries, history: seq<Stamped>, window: int) {
    forall key :: && (key in entries <==> Of(history, key) != [])
                  && (key in entries ==> entries[key] == Trailing(Of(history, key), window))
  }

  /** The read that `process` computes. */
  function Aggregate(entries: Entries, event: TagEvent, at: int, window: int): AggregatedTagRead {
    var key := KeyOf(event);
    if key in entries && at - entries[key].lastSeenAt <= window then
      entries[key].(event := event, lastSeenAt := at, seenCount := entries[key].seenCount + 1, isDuplicate := true)
    else
      AggregatedTagRead(event, at, at, 1, false)
  }

  lemma OfSnoc(history: seq<Stamped>, e: Stamped, key: Key)
    ensures Of(history + [e], key) == if KeyOf(e.event) == key then Of(history, key) + [e] else Of(history, key)
  {
    FrontOfSnoc(history, e);
  }

  lemma TrailingStep(h: seq<Stamped>, event: TagEvent, at: int, window: int)
    requires forall i :: 0 <= i < |h| ==> KeyOf(h[i].event) == KeyOf(event)
    ensures Trailing(h + [Stamped(event, at)], window) ==
            if h != [] && at - Trailing(h, window).lastSeenAt <= window
            then Trailing(h, window).(event := event, lastSeenAt := at,
                                      seenCount := Trailing(h, window).seenCount + 1, isDuplicate := true)
            else AggregatedTagRead(event, at, at, 1, false)
  {
    var now := h + [Stamped(event, at)];
    assert Front(Times(now)) == Times(h);
    assert Last(Times(now)) == at;
  }

  lemma SummariesUpdated(entries: Entries, history: seq<Stamped>, e: Stamped,
      a: AggregatedTagRead, window: int)
    requires Summarises(entries, history, window)
    requires a == Trailing(Of(history + [e], KeyOf(e.event)), window)
    ensures Summarises(entries[KeyOf(e.event) := a], history + [e], window)
  {
    forall key
      ensures Of(history + [e], key) == if KeyOf(e.event) == key then Of(history, key) + [e] else Of(history, key)
    {
      OfSnoc(history, e, key);
    }
  }

  /**
   * One step keeps the aggregator a summary of the history, whatever the time: events of other
   * keys do not interfere, and clocks may run backwards.
   */
  lemma AggregateSummarises(entries: Entries, history: seq<Stamped>, event: TagEvent, at: int,
      window: int)
    requires Summarises(entries, history, window)
    ensures Aggregate(entries, event, at, window) == Trailing(Of(history + [Stamped(event, at)], KeyOf(event)), window)
    ensures var a := Aggregate(entries, event, at, window);
            Summarises(entries[KeyOf(event) := a], history + [Stamped(event, at)], window)
  {
    var now, mine := history + [Stamped(event, at)], KeyOf(event);
    assert mine in entries <==> Of(history, mine) != [];
    OfSnoc(history, Stamped(event, at), mine);
    TrailingStep(Of(history, mine), event, at, window);
    SummariesUpdated(entries, history, Stamped(event, at), Aggregate(entries, event, at, window), window);
  }

  class DuplicateAggregator {
    const window: int
    var entries: Entries
    ghost var history: seq<Stamped>

    ghost predicate Valid()
      reads this
    {
      Summarises(entries, history, window)
    }

    constructor (window: int)
      ensures this.window == window && history == [] && entries == map[] && Valid()
    {
      this.window := window;
      entries := map[];
      history := [];
    }

    /** Returns, and remembers, the trailing session of the event's key. */
    method Process(event: TagEvent, receivedAt: int) returns (aggregated: AggregatedTagRead)
      requires Valid()
      modifies this
      ensures Valid()
      ensures history == old(history) + [Stamped(event, receivedAt)]
      ensures aggregated == Trailing(Of(history, KeyOf(event)), window)
      ensures aggregated == Aggregate(old(entries), event, receivedAt, window)
      ensures entries == old(entries)[KeyOf(event) := aggregated]
    {
      AggregateSummarises(entries, history, event, receivedAt, window);
      var key := KeyOf(event);
      if key in entries && receivedAt - entries[key].lastSeenAt <= window {
        var existing := entries[key];
        aggregated := existing.(
          event := event, lastSeenAt := receivedAt, seenCount := existing.seenCount + 1, isDuplicate := true);
      } else {
        aggregated := AggregatedTagRead(event, receivedAt, receivedAt, 1, false);
      }
      entries := entries[key := aggregated];
      history := history + [Stamped(event, receivedAt)];
    }
  }
}
