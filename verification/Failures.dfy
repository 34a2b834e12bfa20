/**
 * Runs in which what holds otherwise fails: late replays, sessions an aggregator has not seen,
 * clocks that step back, and reads that cannot be saved, written to the file or parsed.
 */
module Failures {
  import opened Wrappers
  import opened Bytes
  import opened Sequences
  import opened Epc
  import opened Rfid
  import opened Repository
  import F = Frames
  import W = Parameters
  import R = Reports
  import P = Pipeline
  import Q = Passage
  import B = Buffer
  import S = Server

  // ----- late replays -----

  function LateRun(first: AggregatedTagRead, second: AggregatedTagRead): seq<S.Event> {
    [S.Receive(first, B.BeforeCommit), S.Receive(second, B.Healthy), S.Startup([], false)]
  }

  lemma FailBuffers(readers: map<int, Reader>, a: AggregatedTagRead, window: int)
    requires B.Storable(a)
    ensures var s := S.Step(S.Initial(readers), S.Receive(a, B.BeforeCommit), window);
            Judge(readers, a.event).Accepted? ==> s.file == [a] && s.store == Store(readers, [], [])
  {
  }

  lemma SaveKeepsFile(s: S.State, a: AggregatedTagRead, window: int)
    ensures var t := S.Step(s, S.Receive(a, B.Healthy), window);
            Judge(s.store.readers, a.event).Accepted? ==>
              t.file == s.file && t.store == AfterSave(s.store, a, window)
  {
  }

  lemma ThreeSteps(readers: map<int, Reader>, e0: S.Event, e1: S.Event, e2: S.Event, window: int)
    ensures S.Run(S.Initial(readers), [e0, e1, e2], window) ==
            S.Step(S.Step(S.Step(S.Initial(readers), e0, window), e1, window), e2, window)
  {
    assert Front([e0, e1, e2]) == [e0, e1] && Front([e0, e1]) == [e0] && Front([e0]) == [];
    assert S.Run(S.Initial(readers), [e0], window) == S.Step(S.Initial(readers), e0, window);
  }

  lemma OneLineReplay(s: S.State, a: AggregatedTagRead, window: int)
    requires s.file == [a] && Judge(s.store.readers, a.event).Accepted?
    ensures S.Step(s, S.Startup([], false), window).store == AfterSave(s.store, a, window)
  {
    var save, t := B.Saving(window, []), AfterSave(s.store, a, window);
    assert save(s.store, a, 0) == B.Tried(t, false, true, false);
    assert B.Drain(t, s.file, save, 1).store == t;
    assert B.Drain(s.store, s.file, save, 0).store == t;
  }

  /** Runs of three events: a save that fails, a save that works, and a replay. */
  lemma FailThenSave(readers: map<int, Reader>, first: AggregatedTagRead,
      second: AggregatedTagRead, window: int)
    returns (once: Store)
    requires first.event == second.event && B.Storable(first)
    requires Judge(readers, first.event) == Accepted(KeyOf(first.event))
    ensures once == AfterSave(Store(readers, [], []), second, window)
    ensures Judge(once.readers, first.event) == Accepted(KeyOf(first.event))
    ensures S.Run(S.Initial(readers), LateRun(first, second), window).store == AfterSave(once, first, window)
  {
    var start := Store(readers, [], []);
    once := AfterSave(start, second, window);
    SaveKeepsConfiguration(start, second, window);
    ConfigurationDecides(readers, once.readers, first.event);
    var s0 := S.Step(S.Initial(readers), S.Receive(first, B.BeforeCommit), window);
    FailBuffers(readers, first, window);
    SaveKeepsFile(s0, second, window);
    ThreeSteps(readers, S.Receive(first, B.BeforeCommit), S.Receive(second, B.Healthy), S.Startup([], false), window);
    OneLineReplay(S.Step(s0, S.Receive(second, B.Healthy), window), first, window);
  }

  lemma FirstSave(store: Store, a: AggregatedTagRead, key: Key, window: int)
    requires store.rows == [] && store.log == [] && Judge(store.readers, a.event) == Accepted(key)
    ensures AfterSave(store, a, window).rows == [Created(a, key)]
    ensures AfterSave(store, a, window).log == [LogEntry(key, a.lastSeenAt)]
  {
  }

  lemma LateRow(second: AggregatedTagRead, key: Key)
    requires second.seenCount == 2
    ensures RowKey(Created(second, key)) == key && Created(second, key).seenCount == 2
    ensures Created(second, key).lastSeenAt == Created(second, key).receivedAt == second.lastSeenAt
    ensures Created(second, key).firstSeenAt == second.firstSeenAt
  {
  }

  lemma SecondSave(store: Store, a: AggregatedTagRead, key: Key, row: TagRead, window: int)
    requires store.rows == [row] && RowKey(row) == key && Judge(store.readers, a.event) == Accepted(key)
    requires row.lastSeenAt >= a.lastSeenAt - window
    ensures AfterSave(store, a, window).rows == [Merged(row, a)]
    ensures AfterSave(store, a, window).log == store.log + [LogEntry(key, a.lastSeenAt)]
  {
    assert IsRecent(store.rows[0], key, a.lastSeenAt - window);
  }

  lemma LateTableAgrees(store: Store, row: TagRead, key: Key, t0: int, t1: int)
    requires store.rows == [row] && RowKey(row) == key && row.lastSeenAt == t0 <= t1
    requires store.log == [LogEntry(key, t1), LogEntry(key, t0)]
    ensures Q.TableAgrees(store) <==> t0 == t1
  {
    var rows, log := Q.RowSightings(store.rows), Q.LogSightings(store.log);
    assert log[0].at == t1 && rows[0].at == t0;
    assert Q.SeenSince(log, key.readerId, key.epcHex, t1);
    assert Q.SeenSince(rows, key.readerId, key.epcHex, t1) <==> t1 <= t0;
    if t0 == t1 {
      forall reader, epc, t
        ensures Q.SeenSince(rows, reader, epc, t) <==> Q.SeenSince(log, reader, epc, t)
      {
        assert Q.SeenSince(log, reader, epc, t) ==> log[0].readerId == reader && log[0].epcHex == epc && t1 >= t;
        assert rows[0].readerId == key.readerId && rows[0].epcHex == key.epcHex;
      }
    }
  }

  lemma AfterLateReplay(store: Store, a: AggregatedTagRead, key: Key, row: TagRead, t1: int,
      window: int)
    returns (t: Store, merged: TagRead)
    requires store.rows == [row] && store.log == [LogEntry(key, t1)]
    requires RowKey(row) == key && row.lastSeenAt == t1 && row.seenCount == 2
    requires a.lastSeenAt <= t1 && a.lastSeenAt >= row.firstSeenAt && window >= 0
    requires Judge(store.readers, a.event) == Accepted(key)
    ensures t == AfterSave(store, a, window) && merged == Merged(row, a)
    ensures t.log == [LogEntry(key, t1), LogEntry(key, a.lastSeenAt)]
    ensures t.rows == [merged] && TotalCount(t.rows) == 3
    ensures Q.TableAgrees(t) <==> a.lastSeenAt == t1
  {
    SecondSave(store, a, key, row, window);
    t, merged := AfterSave(store, a, window), Merged(row, a);
    assert Front([merged]) == [];
    LateTableAgrees(t, merged, key, a.lastSeenAt, t1);
  }

  /**
   * A save that fails and is replayed after a later read of the same session: two events, but
   * the aggregator's count already held both when the row was added, so the row ends with three,
   * and its last time is set back to that of the replayed event.
   */
  lemma LateReplay(readers: map<int, Reader>, event: TagEvent, t0: int, t1: int, window: int)
    returns (first: AggregatedTagRead, second: AggregatedTagRead, store: Store, row: TagRead)
    requires t0 <= t1 && t1 - t0 <= window
    requires event.details.gpsTimestamp.None?
    requires Judge(readers, event) == Accepted(KeyOf(event))
    ensures first == Aggregate(map[], event, t0, window)
    ensures second == Aggregate(map[KeyOf(event) := first], event, t1, window)
    ensures store == S.Run(S.Initial(readers), LateRun(first, second), window).store
    ensures |store.log| == 2 && store.rows == [row] && TotalCount(store.rows) == row.seenCount == 3
    ensures row.firstSeenAt == row.lastSeenAt == t0 && row.receivedAt == t1
    ensures Q.TableAgrees(store) <==> t0 == t1
  {
    var key := KeyOf(event);
    first, second := AggregatedTagRead(event, t0, t0, 1, false), AggregatedTagRead(event, t0, t1, 2, true);
    var once := FailThenSave(readers, first, second, window);
    FirstSave(Store(readers, [], []), second, key, window);
    LateRow(second, key);
    store, row := AfterLateReplay(once, first, key, Created(second, key), t1, window);
  }

  // ----- sessions an aggregator has not seen -----

  lemma OneRow(r: TagRead, key: Key, cutoff: int)
    requires RowKey(r) == key
    ensures Newest([r], key, cutoff) == if r.lastSeenAt >= cutoff then Some(0) else None
  {
    assert Front([r]) == [];
  }

  /** A first read for its aggregator, although the table has a row of its session. */
  ghost predicate Forgotten(entries: Entries, rows: seq<TagRead>, e: Stamped, window: int) {
    var key, a := KeyOf(e.event), Aggregate(entries, e.event, e.at, window);
    && !a.isDuplicate && a.seenCount == 1
    && Newest(rows, key, e.at - window) == Some(0)
    && TouchedRow(rows, a, key, window).seenCount == 2
    && !P.LayersAgree(entries, rows, e, window)
  }

  lemma ForgottenRead(entries: Entries, row: TagRead, e: Stamped, window: int)
    requires KeyOf(e.event) !in entries && RowKey(row) == KeyOf(e.event) && row.seenCount == 1
    requires row.lastSeenAt >= e.at - window
    ensures Forgotten(entries, [row], e, window)
  {
    OneRow(row, KeyOf(e.event), e.at - window);
  }

  /** After one receipt, and after one and a restart: one row, and aggregators that know nothing of it. */
  lemma OneReceipt(readers: map<int, Reader>, event: TagEvent, at: int, window: int)
    returns (row: TagRead, once: P.State, restarted: P.State)
    requires Judge(readers, event) == Accepted(KeyOf(event))
    ensures once == P.Run(readers, [P.Receive(0, event, at)], window)
    ensures restarted == P.Run(readers, [P.Receive(0, event, at), P.Restart(0)], window)
    ensures once.store.rows == restarted.store.rows == [row]
    ensures P.EntriesOf(once, 1) == P.EntriesOf(restarted, 0) == map[]
    ensures RowKey(row) == KeyOf(event) && row.seenCount == 1 && row.lastSeenAt == at
  {
    var start, a := P.State(map[], Store(readers, [], [])), AggregatedTagRead(event, at, at, 1, false);
    row := Created(a, KeyOf(event));
    FirstSave(start.store, a, KeyOf(event), window);
    FrontOfSnoc([], P.Receive(0, event, at));
    FrontOfSnoc([P.Receive(0, event, at)], P.Restart(0));
    assert [P.Receive(0, event, at), P.Restart(0)] == [P.Receive(0, event, at)] + [P.Restart(0)];
    once := P.Step(start, P.Receive(0, event, at), window);
    restarted := P.Step(once, P.Restart(0), window);
  }

  /**
   * Lock-step needs one receiver: a tag read through one and, within the window, through another
   * is no duplicate for the second, whose count is one when the row's is two. Times are in order.
   */
  lemma OtherReceiverBreaksLockStep(readers: map<int, Reader>, event: TagEvent, t0: int, t1: int, window: int)
    returns (s: P.State)
    requires t0 <= t1 <= t0 + window && Judge(readers, event) == Accepted(KeyOf(event))
    ensures P.InTime([P.Receive(0, event, t0), P.Receive(1, event, t1)])
    ensures s == P.Run(readers, [P.Receive(0, event, t0)], window)
    ensures Forgotten(P.EntriesOf(s, 1), s.store.rows, Stamped(event, t1), window)
  {
    var row, once, restarted := OneReceipt(readers, event, t0, window);
    s := once;
    ForgottenRead(map[], row, Stamped(event, t1), window);
  }

  /** Lock-step needs a receiver that keeps running: the same happens when it starts over in between. */
  lemma RestartBreaksLockStep(readers: map<int, Reader>, event: TagEvent, t0: int, t1: int, window: int)
    returns (s: P.State)
    requires t0 <= t1 <= t0 + window && Judge(readers, event) == Accepted(KeyOf(event))
    ensures P.InTime([P.Receive(0, event, t0), P.Restart(0), P.Receive(0, event, t1)])
    ensures s == P.Run(readers, [P.Receive(0, event, t0), P.Restart(0)], window)
    ensures Forgotten(P.EntriesOf(s, 0), s.store.rows, Stamped(event, t1), window)
  {
    var row, once, restarted := OneReceipt(readers, event, t0, window);
    s := restarted;
    ForgottenRead(map[], row, Stamped(event, t1), window);
  }

  // ----- an EPC of no bits -----

  /** A report message holding one tag report whose EPC parameter declares no bits. */
  function EmptyEpcReport(): seq<byte> {
    [4, 61, 0, 0, 0, 20, 0, 0, 0, 0, 0, 240, 0, 10, 0, 241, 0, 6, 0, 0]
  }

  /** An EPC parameter of no bits. */
  function NoBits(): W.Wire {
    W.Wire(0, W.Parameter(W.Tlv, 241, [0, 0]))
  }

  lemma NoBitsEncoded()
    ensures W.WellFormed(NoBits()) && W.EncodeAll([NoBits()]) == [0, 241, 0, 6, 0, 0]
    ensures R.LastField(W.Params([NoBits()]), R.EpcField) == Some("")
    ensures !R.HasBadTimestamp(W.Params([NoBits()]))
  {
    var ps := W.Params([NoBits()]);
    assert W.EncodeAll([NoBits()]) == W.Encode(NoBits()) + [];
    assert ps == [NoBits().param] && R.EpcField(ps[0]) == Some("");
  }

  lemma EmptyEpcPayload(items: seq<R.Item>)
    requires items == [R.Report([NoBits()])]
    ensures R.ItemFits(items[0]) && W.EncodeAll(R.ItemWires(items)) == [0, 240, 0, 10, 0, 241, 0, 6, 0, 0]
  {
    NoBitsEncoded();
    var report := W.Wire(0, W.Parameter(W.Tlv, 240, [0, 241, 0, 6, 0, 0]));
    assert R.ItemWires(items) == [report];
    assert W.EncodeAll([report]) == W.Encode(report) + [];
  }

  lemma EmptyEpcIsBuilt(payload: seq<byte>)
    requires payload == [0, 240, 0, 10, 0, 241, 0, 6, 0, 0]
    ensures R.BuildMessage(R.RO_ACCESS_REPORT, 0, payload) == EmptyEpcReport()
  {
  }

  lemma EmptyEpcEvent(items: seq<R.Item>, readerId: int, host: Address) returns (event: TagEvent)
    requires items == [R.Report([NoBits()])] && R.ItemFits(items[0])
    ensures R.ItemEvents(items, readerId, host) == [event]
    ensures event.epcHex == "" && event.readerId == readerId && event.details.gpsTimestamp.None?
    ensures forall i :: 0 <= i < |items| ==> !R.FailingItem(items[i])
  {
    NoBitsEncoded();
    var events := R.ItemEvent(items[0], readerId, host);
    event := events[0];
    FrontOfSnoc([], items[0]);
    assert R.ItemEvents(items, readerId, host) == [] + events;
  }

  /** An LLRP reader can send it: its report gives one event, whose EPC text is empty. */
  lemma EmptyEpcIsReceived(readerId: int, host: Address) returns (event: TagEvent)
    ensures R.FrameResult(EmptyEpcReport(), readerId, host) == Ok([event])
    ensures event.epcHex == "" && event.readerId == readerId && event.details.gpsTimestamp.None?
  {
    var items := [R.Report([NoBits()])];
    EmptyEpcPayload(items);
    EmptyEpcIsBuilt(W.EncodeAll(R.ItemWires(items)));
    R.ReportRoundTrip(items, 0, readerId, host);
    event := EmptyEpcEvent(items, readerId, host);
  }

  /** The read that an aggregator makes of an event, whatever it knew before. */
  lemma LatestRead(event: TagEvent, history: seq<Stamped>, at: int, window: int) returns (a: AggregatedTagRead)
    ensures a == Trailing(Of(history + [Stamped(event, at)], KeyOf(event)), window) && a.event == event
  {
    OfSnoc(history, Stamped(event, at), KeyOf(event));
    a := Trailing(Of(history + [Stamped(event, at)], KeyOf(event)), window);
  }

  lemma EmptyEpcIsRefused(s: S.State, a: AggregatedTagRead)
    requires a.event.epcHex == ""
    ensures S.NeverSaved(s.store.readers, a)
  {
    NoEpcInNothing();
  }

  /** The read of such an event blocks the buffer for good, whatever the aggregator knew. */
  lemma EmptyEpcBlocksTheFile(
    s: S.State, event: TagEvent, history: seq<Stamped>, at: int, window: int, fault: B.Fault, later: seq<S.Event>)
    requires event.epcHex == "" && event.details.gpsTimestamp.None?
    ensures var a := Trailing(Of(history + [Stamped(event, at)], KeyOf(event)), window);
            var t := S.Log(s, a, window, fault);
            && t.file == s.file + [a]
            && S.Run(t, later, window).file != []
            && S.Taken(t, later, window) <= |s.file|
  {
    var a := LatestRead(event, history, at, window);
    EmptyEpcIsRefused(s, a);
    S.RefusedBlocksTheFile(s, a, window, fault, later);
  }

  // ----- values that overflow their columns -----

  /** Details whose direction has 65 characters, for a column of 64. */
  function Overlong(): Details {
    Details(None, None, None, Some(seq(65, _ => 'x')), None, None, None, None, None, None, None, None, "", None)
  }

  lemma OverlongDoesNotFit()
    ensures !FitsDetails(Overlong())
  {
    assert Overlong().direction.value[64] == 'x';
  }

  /** A TCP client can send it: the payload is accepted. */
  lemma OverlongIsReceived(readerId: int, epc: string, antenna: Option<int>, peer: Address) returns (event: TagEvent)
    requires Canonical(epc) && |epc| <= 128
    ensures ParseSimulatorEvent(SimulatorData(Some(readerId), Some(epc), antenna, Overlong()), peer) == Ok(event)
    ensures event == TagEvent(readerId, epc, antenna, peer, Overlong())
  {
    ShortEpcsParse(epc);
    event := TagEvent(readerId, epc, antenna, peer, Overlong());
  }

  /** If its key is accepted, the read of such an event blocks the buffer for good. */
  lemma OverlongBlocksTheFile(
    s: S.State, event: TagEvent, history: seq<Stamped>, at: int, window: int, fault: B.Fault, later: seq<S.Event>)
    requires event.details == Overlong() && JudgeKey(s.store.readers, KeyOf(event)).Accepted?
    ensures var a := Trailing(Of(history + [Stamped(event, at)], KeyOf(event)), window);
            var t := S.Log(s, a, window, fault);
            && t.file == s.file + [a]
            && S.Run(t, later, window).file != []
            && S.Taken(t, later, window) <= |s.file|
  {
    var a := LatestRead(event, history, at, window);
    OverlongDoesNotFit();
    S.RefusedBlocksTheFile(s, a, window, fault, later);
  }

  /** One accepted event through receiver 0, as it changes aggregator and table. */
  lemma ReceiveOne(s: P.State, event: TagEvent, at: int, window: int) returns (t: P.State, a: AggregatedTagRead)
    requires Judge(s.store.readers, event) == Accepted(KeyOf(event))
    ensures t == P.Step(s, P.Receive(0, event, at), window)
    ensures a == Aggregate(P.EntriesOf(s, 0), event, at, window)
    ensures P.EntriesOf(t, 0) == P.EntriesOf(s, 0)[KeyOf(event) := a]
    ensures t.store.rows == Upsert(s.store.rows, a, KeyOf(event), window)
    ensures t.store.log == s.store.log + [LogEntry(KeyOf(event), at)]
    ensures Judge(t.store.readers, event) == Accepted(KeyOf(event))
  {
    t, a := P.Step(s, P.Receive(0, event, at), window), Aggregate(P.EntriesOf(s, 0), event, at, window);
    SaveKeepsConfiguration(s.store, a, window);
    ConfigurationDecides(s.store.readers, t.store.readers, event);
  }

  lemma TwoActions(readers: map<int, Reader>, e0: P.Action, e1: P.Action, window: int)
    ensures P.Run(readers, [e0, e1], window) ==
            P.Step(P.Step(P.State(map[], Store(readers, [], [])), e0, window), e1, window)
  {
    assert Front([e0, e1]) == [e0] && Front([e0]) == [];
    assert P.Run(readers, [e0], window) == P.Step(P.State(map[], Store(readers, [], [])), e0, window);
  }

  lemma AddedToNothing(a: AggregatedTagRead, key: Key, window: int)
    ensures Upsert([], a, key, window) == [Created(a, key)]
  {
  }

  lemma RefusedStep(s: P.State, bad: TagEvent, at: int, window: int) returns (t: P.State)
    requires P.EntriesOf(s, 0) == map[] && !FitsDetails(bad.details)
    requires JudgeKey(s.store.readers, KeyOf(bad)).Accepted?
    ensures t == P.Step(s, P.Receive(0, bad, at), window) && t.store == s.store
    ensures P.EntriesOf(t, 0) == map[KeyOf(bad) := AggregatedTagRead(bad, at, at, 1, false)]
  {
    t := P.Step(s, P.Receive(0, bad, at), window);
  }

  /**
   * A read of the same tag that follows through the same receiver within the window starts late:
   * the aggregator counts the refused event too, and the row that is added for one accepted event
   * has a count of two and the first time of the other. Times are in order.
   */
  lemma RefusedEventStartsLate(
    readers: map<int, Reader>, bad: TagEvent, good: TagEvent, t0: int, t1: int, window: int)
    returns (s: P.State, row: TagRead)
    requires KeyOf(bad) == KeyOf(good) && !FitsDetails(bad.details)
    requires Judge(readers, good) == Accepted(KeyOf(good)) && t0 <= t1 <= t0 + window
    ensures P.InTime([P.Receive(0, bad, t0), P.Receive(0, good, t1)])
    ensures s == P.Run(readers, [P.Receive(0, bad, t0), P.Receive(0, good, t1)], window)
    ensures s.store.log == [LogEntry(KeyOf(good), t1)] && s.store.rows == [row]
    ensures row.seenCount == 2 && row.firstSeenAt == t0 && row.receivedAt == row.lastSeenAt == t1
  {
    var start := P.State(map[], Store(readers, [], []));
    TwoActions(readers, P.Receive(0, bad, t0), P.Receive(0, good, t1), window);
    var once := RefusedStep(start, bad, t0, window);
    var a;
    s, a := ReceiveOne(once, good, t1, window);
    row := Created(a, KeyOf(good));
    AddedToNothing(a, KeyOf(good), window);
  }

  // ----- GPS times -----

  /**
   * A payload with a GPS time is accepted, and its read is lost if the save raises before its
   * commit: it is neither stored nor written to the file.
   */
  lemma GpsPayloadIsLost(
    s: S.State, data: SimulatorData, epc: string, peer: Address, history: seq<Stamped>, at: int, window: int)
    returns (event: TagEvent, a: AggregatedTagRead)
    requires data.readerId.Some? && data.epcHex == Some(epc) && Canonical(epc) && |epc| <= 128
    requires data.details.gpsTimestamp.Some?
    ensures ParseSimulatorEvent(data, peer) == Ok(event)
    ensures a == Trailing(Of(history + [Stamped(event, at)], KeyOf(event)), window) && a.event == event
    ensures var t := S.Log(s, a, window, B.BeforeCommit);
            t.ledger.lost == s.ledger.lost + multiset{a} && t.file == s.file && t.store == s.store
  {
    ShortEpcsParse(epc);
    event := ParseSimulatorEvent(data, peer).value;
    a := LatestRead(event, history, at, window);
    S.GpsReadIsLost(s, a, window, B.BeforeCommit);
  }

  // ----- timestamps beyond the year 9999 -----

  /** Two readings of a tag, the second with the largest time that can be sent. */
  function LateReadings(epc: string): seq<R.Reading> {
    [R.Reading(epc, false, None, None, None, false),
     R.Reading(epc, false, None, None, Some(0xFFFF_FFFF_FFFF_FFFF), false)]
  }

  lemma EncodedOne(x: W.Wire)
    requires W.WellFormed(x)
    ensures |W.EncodeAll([x])| == W.Size(x)
  {
    assert W.EncodeAll([x]) == W.Encode(x) + [];
  }

  lemma EncodedTwo(x: W.Wire, y: W.Wire)
    requires W.WellFormed(x) && W.WellFormed(y)
    ensures |W.EncodeAll([x, y])| == W.Size(x) + W.Size(y)
  {
    assert [x, y][1..] == [y];
    EncodedOne(y);
  }

  lemma ReadingFits(r: R.Reading)
    requires R.Sendable(r) && |r.epc| <= 128 && r.antenna.None? && r.rssi.None?
    ensures R.ItemFits(R.Report(R.ReadingWires(r))) && |W.EncodeAll(R.ReadingWires(r))| <= 80
  {
    R.ReadingIsRead(r);
    R.CarriesEpc(r.epc, r.compact);
    match r.time
    case None => EncodedOne(R.EpcWire(r.epc, r.compact));
    case Some(time) => EncodedTwo(R.EpcWire(r.epc, r.compact), R.TimeWire(time, r.last));
  }

  lemma TwoItemsFit(i0: R.Item, i1: R.Item, items: seq<R.Item>)
    requires R.ItemFits(i0) && i0.Report? && |W.EncodeAll(i0.params)| <= 80
    requires R.ItemFits(i1) && i1.Report? && |W.EncodeAll(i1.params)| <= 80
    requires items == [i0, i1]
    ensures |W.EncodeAll(R.ItemWires(items))| <= 200
  {
    assert R.ItemWires(items) == [R.ItemWire(i0), R.ItemWire(i1)];
    EncodedTwo(R.ItemWire(i0), R.ItemWire(i1));
  }

  lemma TwoReadings(r0: R.Reading, r1: R.Reading, rs: seq<R.Reading>)
    requires rs == [r0, r1] && R.Sendable(r0) && R.Sendable(r1)
    requires R.ItemFits(R.Report(R.ReadingWires(r0))) && R.ItemFits(R.Report(R.ReadingWires(r1)))
    ensures R.AllSendable(rs)
    ensures R.ReadingItems(rs) == [R.Report(R.ReadingWires(r0)), R.Report(R.ReadingWires(r1))]
  {
  }

  lemma LateReadingsFit(epc: string, rs: seq<R.Reading>)
    requires Canonical(epc) && |epc| <= 128 && rs == LateReadings(epc)
    ensures R.AllSendable(rs) && |W.EncodeAll(R.ItemWires(R.ReadingItems(rs)))| <= 200
    ensures Any(rs, R.TooLate)
  {
    ReadingFits(rs[0]);
    ReadingFits(rs[1]);
    TwoReadings(rs[0], rs[1], rs);
    TwoItemsFit(R.Report(R.ReadingWires(rs[0])), R.Report(R.ReadingWires(rs[1])), R.ReadingItems(rs));
    assert R.TooLate(rs[1]);
  }

  lemma FailingFrameEndsTheLoop(frame: seq<byte>, readerId: int, host: Address)
    requires F.IsFrame(frame) && R.FrameFails(frame)
    ensures F.Consumed(frame, readerId, host) == F.Trace([], F.BadReport(R.TimestampOutOfRange))
  {
    assert frame[..|frame|] == frame;
  }

  lemma LateFrame(rs: seq<R.Reading>, messageId: nat, readerId: int, host: Address) returns (frame: seq<byte>)
    requires R.AllSendable(rs) && Any(rs, R.TooLate) && messageId < 0x1_0000_0000 && rs != []
    requires |W.EncodeAll(R.ItemWires(R.ReadingItems(rs)))| <= 200
    ensures F.IsFrame(frame) && R.FrameFails(frame)
    ensures |R.FrameEvents(frame, readerId, host)| == |rs|
    ensures R.FrameEvents(frame, readerId, host)[0].epcHex == rs[0].epc
  {
    var payload := W.EncodeAll(R.ItemWires(R.ReadingItems(rs)));
    R.MessageRoundTrip(R.RO_ACCESS_REPORT, messageId, payload);
    R.ReadingsRoundTrip(rs, messageId, readerId, host);
    R.ReadingEventAt(rs, readerId, host, 0);
    frame := R.BuildMessage(R.RO_ACCESS_REPORT, messageId, payload);
  }

  /**
   * One report too late fails its whole frame: the first reading is good and gives an event, yet
   * parsing raises, the loop ends with that exception and hands nothing on.
   */
  lemma LateTimestampFailsTheFrame(epc: string, messageId: nat, readerId: int, host: Address)
    returns (frame: seq<byte>)
    requires Canonical(epc) && |epc| <= 128 && messageId < 0x1_0000_0000
    ensures F.IsFrame(frame)
    ensures |R.FrameEvents(frame, readerId, host)| == 2 && R.FrameEvents(frame, readerId, host)[0].epcHex == epc
    ensures R.FrameResult(frame, readerId, host) == Err(R.TimestampOutOfRange)
    ensures F.Consumed(frame, readerId, host) == F.Trace([], F.BadReport(R.TimestampOutOfRange))
  {
    var rs := LateReadings(epc);
    LateReadingsFit(epc, rs);
    frame := LateFrame(rs, messageId, readerId, host);
    FailingFrameEndsTheLoop(frame, readerId, host);
  }

  // ----- clocks that run backwards -----

  lemma TwoRows(r0: TagRead, r1: TagRead, key: Key, cutoff: int)
    requires RowKey(r0) == key && RowKey(r1) == key && r0.lastSeenAt >= cutoff && r1.lastSeenAt >= cutoff
    ensures Newest([r0, r1], key, cutoff) == if r1.lastSeenAt > r0.lastSeenAt then Some(1) else Some(0)
  {
    assert Front([r0, r1]) == [r0];
    OneRow(r0, key, cutoff);
  }

  lemma ThreeActions(readers: map<int, Reader>, e0: P.Action, e1: P.Action, e2: P.Action, window: int)
    ensures P.Run(readers, [e0, e1, e2], window) == P.Step(P.Run(readers, [e0, e1], window), e2, window)
  {
    assert Front([e0, e1, e2]) == [e0, e1];
  }

  /** Two rows of a key, the second in step with the entry and overtaken by the first. */
  lemma OvertakenRead(entries: Entries, r0: TagRead, r1: TagRead, event: TagEvent, at: int, window: int)
    requires RowKey(r0) == RowKey(r1) == KeyOf(event) && P.Tracks(entries, [r0, r1], KeyOf(event), 1)
    requires at - window <= r1.lastSeenAt < r0.lastSeenAt && r0.seenCount < r1.seenCount
    ensures P.Overtaken([r0, r1], 1, KeyOf(event), at - window)
    ensures var a := Aggregate(entries, event, at, window);
            && !P.LayersAgree(entries, [r0, r1], Stamped(event, at), window)
            && a.seenCount == r1.seenCount + 1
            && TouchedRow([r0, r1], a, KeyOf(event), window).seenCount == r0.seenCount + 1
  {
    TwoRows(r0, r1, KeyOf(event), at - window);
    assert IsRecent([r0, r1][0], KeyOf(event), at - window);
  }

  /** What one aggregator holds, and the rows of a table it alone feeds. */
  datatype Pair = Pair(entries: Entries, rows: seq<TagRead>)

  function After(m: Pair, event: TagEvent, at: int, window: int): Pair {
    var a := Aggregate(m.entries, event, at, window);
    Pair(m.entries[KeyOf(event) := a], Upsert(m.rows, a, KeyOf(event), window))
  }

  function BackwardReceipts(event: TagEvent, window: int): seq<P.Action> {
    [P.Receive(0, event, 0), P.Receive(0, event, window + 1), P.Receive(0, event, -1)]
  }

  /** An accepted event changes the two as `After` says. */
  lemma RunOfOneTag(readers: map<int, Reader>, event: TagEvent, window: int) returns (s: P.State)
    requires Judge(readers, event) == Accepted(KeyOf(event))
    ensures s == P.Run(readers, BackwardReceipts(event, window), window)
    ensures Pair(P.EntriesOf(s, 0), s.store.rows) ==
            After(After(After(Pair(map[], []), event, 0, window), event, window + 1, window), event, -1, window)
  {
    TwoActions(readers, P.Receive(0, event, 0), P.Receive(0, event, window + 1), window);
    ThreeActions(readers, P.Receive(0, event, 0), P.Receive(0, event, window + 1), P.Receive(0, event, -1), window);
    var s0, a0 := ReceiveOne(P.State(map[], Store(readers, [], [])), event, 0, window);
    var s1, a1 := ReceiveOne(s0, event, window + 1, window);
    var a2;
    s, a2 := ReceiveOne(s1, event, -1, window);
  }

  /** Two rows, and an entry in step with the second, which ends before the first. */
  lemma StepBack(event: TagEvent, window: int) returns (m: Pair, r0: TagRead, r1: TagRead)
    requires window >= 1
    ensures m == After(After(After(Pair(map[], []), event, 0, window), event, window + 1, window), event, -1, window)
    ensures m.rows == [r0, r1] && P.Tracks(m.entries, m.rows, KeyOf(event), 1)
    ensures RowKey(r0) == RowKey(r1) == KeyOf(event)
    ensures r0.lastSeenAt == 0 && r0.seenCount == 1 && r1.lastSeenAt == -1 && r1.seenCount == 2
  {
    var key := KeyOf(event);
    var a0, a1 := AggregatedTagRead(event, 0, 0, 1, false), AggregatedTagRead(event, window + 1, window + 1, 1, false);
    var a2, before := AggregatedTagRead(event, window + 1, -1, 2, true), Created(a1, key);
    r0, r1 := Created(a0, key), Merged(before, a2);
    assert After(Pair(map[], []), event, 0, window) == Pair(map[key := a0], [r0]);
    OneRow(r0, key, 1);
    assert After(Pair(map[key := a0], [r0]), event, window + 1, window) == Pair(map[key := a1], [r0, before]);
    TwoRows(r0, before, key, -1 - window);
    m := Pair(map[key := a2], [r0, r1]);
    assert After(Pair(map[key := a1], [r0, before]), event, -1, window) == m;
  }

  /**
   * Lock-step needs order: with any window of at least a microsecond, after reads of one tag at 0,
   * past the window and at -1, the aggregator's entry and the second row are in step, but the
   * first row has overtaken that one; a fourth read at 0 gets a count of three and goes to a row
   * whose count becomes two.
   */
  lemma BackwardClockBreaksLockStep(readers: map<int, Reader>, event: TagEvent, window: int)
    returns (s: P.State, entries: Entries, rows: seq<TagRead>)
    requires window >= 1 && Judge(readers, event) == Accepted(KeyOf(event))
    ensures s == P.Run(readers, BackwardReceipts(event, window), window)
    ensures entries == P.EntriesOf(s, 0) && rows == s.store.rows
    ensures P.Tracks(entries, rows, KeyOf(event), 1) && P.Overtaken(rows, 1, KeyOf(event), -window)
    ensures var a := Aggregate(entries, event, 0, window);
            && !P.LayersAgree(entries, rows, Stamped(event, 0), window)
            && a.seenCount == 3 && TouchedRow(rows, a, KeyOf(event), window).seenCount == 2
  {
    s := RunOfOneTag(readers, event, window);
    var m, r0, r1 := StepBack(event, window);
    entries, rows := P.EntriesOf(s, 0), s.store.rows;
    OvertakenRead(entries, r0, r1, event, 0, window);
  }
}
