/**
 * From bytes to rows: the receive loop, the aggregators and the table together, for one stream,
 * for any connections, and with faults.
 */
module EndToEnd {
  import opened Bytes
  import opened Sequences
  import opened Sessions
  import opened Rfid
  import opened Repository
  import opened Table
  import F = Frames
  import R = Reports
  import P = Pipeline
  import Q = Passage
  import B = Buffer
  import S = Server

  // ----- one receiver -----

  /** Saving what one receiver hands on is the run of the pipeline with that one aggregator. */
  lemma {:induction false} DeliveredIsTheFeed(readers: map<int, Reader>, events: seq<Stamped>, window: int)
    ensures P.Run(readers, P.Feed(events), window).store
         == SaveAll(Store(readers, [], []), F.Aggregated([], events, window), window)
  {
    if events != [] {
      var front, e := Front(events), Last(events);
      assert events == front + [e];
      P.FeedStep(front, e);
      DeliveredIsTheFeed(readers, front, window);
      P.MemoryIsSummarised(readers, P.Feed(front), window, 0);
      P.FeedIsRemembered(front, KeyOf(e.event));
      var s := P.Run(readers, P.Feed(front), window);
      AggregateSummarises(P.EntriesOf(s, 0), front, e.event, e.at, window);
      assert [] + events == events;
      FrontOfSnoc(F.Aggregated([], front, window), Trailing(Of(events, KeyOf(e.event)), window));
    }
  }

  predicate AllReported(events: seq<TagEvent>) {
    forall i :: 0 <= i < |events| ==> R.Reported(events[i])
  }

  lemma ReportedAppend(a: seq<TagEvent>, b: seq<TagEvent>)
    requires AllReported(a) && AllReported(b)
    ensures AllReported(a + b)
  {
    forall i | 0 <= i < |a + b|
      ensures R.Reported((a + b)[i])
    {
      assert (a + b)[i] == if i < |a| then a[i] else b[i - |a|];
    }
  }

  lemma {:induction false} FramesReported(frames: seq<seq<byte>>, readerId: int,
      host: Address) returns (events: seq<TagEvent>)
    ensures events == F.ReportedEvents(frames, readerId, host)
    ensures AllReported(events)
  {
    if frames == [] {
      events := [];
    } else {
      var first := R.FrameEvents(frames[0], readerId, host);
      R.FramesAreCoherent(frames[0], readerId, host);
      var more := FramesReported(frames[1..], readerId, host);
      ReportedAppend(first, more);
      events := first + more;
    }
  }

  lemma StreamEvents(stream: seq<byte>, readerId: int, host: Address) returns (events: seq<TagEvent>)
    ensures events == F.Events(F.Consumed(stream, readerId, host).actions)
    ensures AllReported(events)
  {
    var frames, tail := F.EveryStreamIsFrames(stream);
    F.FramesAreConsumed(frames, tail, readerId, host);
    F.KeepalivesAreAcknowledged(frames, readerId, host);
    events := FramesReported(frames, readerId, host);
  }

  /** The rows of the key are its sessions, and the counts add up to the accepted events. */
  ghost predicate Faithful(store: Store, key: Key, window: int) {
    && RecordsAll(RowsOf(store.rows, key), Runs(TimesOf(store.log, key), window))
    && TotalCount(store.rows) == |store.log|
  }

  /** The passage report asked of the table is that of the full log. */
  ghost predicate ExactPassage(store: Store, reader: int, passageWindow: int, now: int) {
    Q.ReaderPassage(store.readers, Q.RowSightings(store.rows), reader, passageWindow, now) ==
    Q.ReaderPassage(store.readers, Q.LogSightings(store.log), reader, passageWindow, now)
  }

  lemma FittingToTable(readers: map<int, Reader>, actions: seq<P.Action>, window: int, key: Key)
    requires P.AllCoherent(actions) && P.AllFit(actions) && P.InTime(actions)
    ensures Faithful(P.Run(readers, actions, window).store, key, window)
  {
    P.RunSavesReads(readers, actions, window);
    P.InTimeIsInOrder(readers, actions);
    P.TableIsTheSessions(readers, actions, window, key);
  }

  lemma InTimePassages(readers: map<int, Reader>, actions: seq<P.Action>, window: int, reader: int,
                       passageWindow: int, now: int)
    requires P.InTime(actions)
    ensures ExactPassage(P.Run(readers, actions, window).store, reader, passageWindow, now)
  {
    P.RunSavesReads(readers, actions, window);
    P.InTimeIsInOrder(readers, actions);
    Q.PassageFromTable(readers, P.Reads(readers, actions, window), window, reader, passageWindow, now);
  }

  // ----- one stream -----

  /** The events that a stream of bytes makes a fresh receiver aggregate, with their times. */
  function Received(stream: seq<byte>, readerId: int, host: Address, clock: nat -> int): seq<Stamped> {
    F.Stamp(F.Events(F.Consumed(stream, readerId, host).actions), clock, 0)
  }

  ghost predicate NeverBack(clock: nat -> int) {
    forall m: nat, n: nat :: m <= n ==> clock(m) <= clock(n)
  }

  /** The database after saving everything a fresh receiver hands on. */
  function TableOf(readers: map<int, Reader>, h: seq<Stamped>, window: int): Store {
    SaveAll(Store(readers, [], []), F.Aggregated([], h, window), window)
  }

  lemma StampedInOrder(events: seq<TagEvent>, clock: nat -> int)
    requires NeverBack(clock) && AllReported(events)
    ensures var actions := P.Feed(F.Stamp(events, clock, 0));
            P.AllCoherent(actions) && P.AllFit(actions) && P.InTime(actions)
  {
  }

  /**
   * Whatever bytes a reader sends, if the clock does not run backwards and every save succeeds,
   * the table holds one row per session of each key with the right times and count, the counts
   * add up to the accepted events, and passages are those of the full log.
   */
  lemma BytesToTable(stream: seq<byte>, readerId: int, host: Address, clock: nat -> int, window: int,
                     readers: map<int, Reader>, key: Key, reader: int, passageWindow: int, now: int)
    requires NeverBack(clock)
    ensures var store := TableOf(readers, Received(stream, readerId, host, clock), window);
            && store.log == P.Admitted(readers, P.Feed(Received(stream, readerId, host, clock)))
            && Faithful(store, key, window) && ExactPassage(store, reader, passageWindow, now)
  {
    var h := Received(stream, readerId, host, clock);
    var events := StreamEvents(stream, readerId, host);
    StampedInOrder(events, clock);
    DeliveredIsTheFeed(readers, h, window);
    P.RunSavesReads(readers, P.Feed(h), window);
    FittingToTable(readers, P.Feed(h), window, key);
    InTimePassages(readers, P.Feed(h), window, reader, passageWindow, now);
  }

  // ----- many connections -----

  /**
   * A connection to one of the receivers: the bytes of an LLRP reader, or the decoded JSON
   * payloads of a client of the TCP receiver. `agg` is the receiver, and so its aggregator.
   */
  datatype Connection =
    | Llrp(agg: nat, readerId: int, host: Address, stream: seq<byte>)
    | Json(agg: nat, payloads: seq<SimulatorData>, peer: Address)

  /** The events of accepted payloads; the others are discarded. */
  function PayloadEvents(payloads: seq<SimulatorData>, peer: Address): seq<TagEvent> {
    if payloads == [] then []
    else
      var earlier := PayloadEvents(Front(payloads), peer);
      match ParseSimulatorEvent(Last(payloads), peer)
      case Ok(event) => earlier + [event]
      case Err(_) => earlier
  }

  function ConnectionEvents(c: Connection): seq<TagEvent> {
    match c
    case Llrp(_, readerId, host, stream) => F.Events(F.Consumed(stream, readerId, host).actions)
    case Json(_, payloads, peer) => PayloadEvents(payloads, peer)
  }

  /** The scheduler lets a connection deliver its next event, or a receiver starts over. */
  datatype Turn = Next(connection: nat, at: int) | Reset(agg: nat)

  /** How many events of a connection have been asked for. */
  function Position(turns: seq<Turn>, connection: nat): nat {
    if turns == [] then 0
    else
      Position(Front(turns), connection)
      + if Last(turns).Next? && Last(turns).connection == connection then 1 else 0
  }

  /** What happens in a turn: the next event of the connection, if there is one, is received. */
  function ActionsOf(turns: seq<Turn>, connections: seq<Connection>): seq<P.Action> {
    if turns == [] then []
    else
      var earlier := ActionsOf(Front(turns), connections);
      match Last(turns)
      case Reset(agg) => earlier + [P.Restart(agg)]
      case Next(c, at) =>
        if c >= |connections| || Position(Front(turns), c) >= |ConnectionEvents(connections[c])| then earlier
        else earlier + [P.Receive(connections[c].agg, ConnectionEvents(connections[c])[Position(Front(turns), c)], at)]
  }

  /** The earlier turns of a connection. */
  ghost function Asked(turns: seq<Turn>, connection: nat): set<nat> {
    set i: nat | i < |turns| && turns[i].Next? && turns[i].connection == connection
  }

  lemma {:induction false} PositionCounts(turns: seq<Turn>, connection: nat)
    ensures Position(turns, connection) == |Asked(turns, connection)|
  {
    if turns != [] {
      var front, k := Front(turns), |turns| - 1;
      PositionCounts(front, connection);
      if turns[k].Next? && turns[k].connection == connection {
        assert Asked(turns, connection) == Asked(front, connection) + {k};
      } else {
        assert Asked(turns, connection) == Asked(front, connection);
      }
    }
  }

  /**
   * A turn of a connection that had n turns before delivers its event n at the time of the turn,
   * or nothing when there is no such event: no event is skipped, repeated or put out of order.
   */
  lemma EachTurnDelivers(turns: seq<Turn>, connections: seq<Connection>, k: nat)
    requires k < |turns|
    ensures turns[k].Reset? ==>
              ActionsOf(turns[..k + 1], connections) == ActionsOf(turns[..k], connections) + [P.Restart(turns[k].agg)]
    ensures turns[k].Next? ==>
              var c, n := turns[k].connection, |Asked(turns[..k], turns[k].connection)|;
              ActionsOf(turns[..k + 1], connections) == ActionsOf(turns[..k], connections)
                + if c < |connections| && n < |ConnectionEvents(connections[c])|
                  then [P.Receive(connections[c].agg, ConnectionEvents(connections[c])[n], turns[k].at)]
                  else []
  {
    assert Front(turns[..k + 1]) == turns[..k];
    if turns[k].Next? {
      PositionCounts(turns[..k], turns[k].connection);
    }
  }

  /** The times of the turns do not go back. */
  ghost predicate TurnsInTime(turns: seq<Turn>) {
    forall i, j :: 0 <= i <= j < |turns| && turns[i].Next? && turns[j].Next? ==> turns[i].at <= turns[j].at
  }

  predicate Coherent(events: seq<TagEvent>) {
    forall i :: 0 <= i < |events| ==> KeyCoherent(events[i])
  }

  lemma CoherentSnoc(events: seq<TagEvent>, event: TagEvent)
    requires Coherent(events) && KeyCoherent(event)
    ensures Coherent(events + [event])
  {
  }

  lemma {:induction false} PayloadsCoherent(payloads: seq<SimulatorData>, peer: Address)
    ensures Coherent(PayloadEvents(payloads, peer))
  {
    if payloads != [] {
      PayloadsCoherent(Front(payloads), peer);
      var r := ParseSimulatorEvent(Last(payloads), peer);
      if r.Ok? {
        SimulatorEventsAreCoherent(Last(payloads), peer);
        CoherentSnoc(PayloadEvents(Front(payloads), peer), r.value);
      }
    }
  }

  lemma ReportedIsCoherent(events: seq<TagEvent>)
    requires AllReported(events)
    ensures Coherent(events)
  {
  }

  /** The events of every connection are coherent, and those of LLRP readers as such events are. */
  lemma ConnectionsAreSound(c: Connection) returns (events: seq<TagEvent>)
    ensures events == ConnectionEvents(c) && Coherent(events)
    ensures c.Llrp? ==> AllReported(events)
  {
    match c
    case Llrp(_, readerId, host, stream) =>
      events := StreamEvents(stream, readerId, host);
      ReportedIsCoherent(events);
    case Json(_, payloads, peer) =>
      events := PayloadEvents(payloads, peer);
      PayloadsCoherent(payloads, peer);
  }

  /** All the payloads of TCP clients that are accepted fit the columns. */
  predicate PayloadsFit(connections: seq<Connection>) {
    forall c, i :: 0 <= c < |connections| && connections[c].Json? && 0 <= i < |ConnectionEvents(connections[c])| ==>
      FitsDetails(ConnectionEvents(connections[c])[i].details)
  }

  /** Every event received is one of a connection. */
  lemma {:induction false} ActionsComeFrom(turns: seq<Turn>, connections: seq<Connection>, i: nat)
    returns (c: nat, j: nat)
    requires i < |ActionsOf(turns, connections)| && ActionsOf(turns, connections)[i].Receive?
    ensures c < |connections| && j < |ConnectionEvents(connections[c])|
    ensures ActionsOf(turns, connections)[i].event == ConnectionEvents(connections[c])[j]
  {
    var earlier := ActionsOf(Front(turns), connections);
    if i < |earlier| {
      c, j := ActionsComeFrom(Front(turns), connections, i);
    } else {
      c, j := Last(turns).connection, Position(Front(turns), Last(turns).connection);
    }
  }

  lemma ActionsSound(turns: seq<Turn>, connections: seq<Connection>)
    ensures P.AllCoherent(ActionsOf(turns, connections))
    ensures PayloadsFit(connections) ==> P.AllFit(ActionsOf(turns, connections))
  {
    var actions := ActionsOf(turns, connections);
    forall i | 0 <= i < |actions| && actions[i].Receive?
      ensures KeyCoherent(actions[i].event)
      ensures PayloadsFit(connections) ==> FitsDetails(actions[i].event.details)
    {
      var c, j := ActionsComeFrom(turns, connections, i);
      var events := ConnectionsAreSound(connections[c]);
    }
  }

  /** An action is received at the time of its turn, so actions are in time when turns are. */
  lemma {:induction false} ActionsInTime(turns: seq<Turn>, connections: seq<Connection>) returns (from: seq<nat>)
    requires TurnsInTime(turns)
    ensures P.InTime(ActionsOf(turns, connections))
    ensures |from| == |ActionsOf(turns, connections)|
    ensures forall i :: 0 <= i < |from| && ActionsOf(turns, connections)[i].Receive? ==>
              from[i] < |turns| && turns[from[i]].Next? && turns[from[i]].at == ActionsOf(turns, connections)[i].at
  {
    if turns == [] {
      from := [];
    } else {
      from := ActionsInTime(Front(turns), connections);
      var earlier, actions := ActionsOf(Front(turns), connections), ActionsOf(turns, connections);
      if |actions| > |earlier| {
        from := from + [|turns| - 1];
      }
    }
  }

  /**
   * The whole server: any number of LLRP readers and TCP clients, each reconnecting as often as
   * it likes and sending whatever it likes, interleaved in any way, and receivers starting over
   * at any moment. If the clock does not run backwards and every save meets no outage, the log is
   * the accepted receipts in order and passages are those of the log; the rows of a key are its
   * sessions just when none of its events starts late, and the counts add up just when no event
   * of any key does.
   */
  lemma StreamsToTable(connections: seq<Connection>, turns: seq<Turn>, window: int, readers: map<int, Reader>,
                       key: Key, reader: int, passageWindow: int, now: int)
    requires TurnsInTime(turns)
    ensures var actions := ActionsOf(turns, connections);
            var store := P.Run(readers, actions, window).store;
            && store == SaveAll(Store(readers, [], []), P.Reads(readers, actions, window), window)
            && store.log == P.Admitted(readers, actions)
            && ExactPassage(store, reader, passageWindow, now)
            && (RecordsAll(RowsOf(store.rows, key), Runs(TimesOf(store.log, key), window)) <==>
                P.NoneStartsLate(readers, actions, window, key))
            && (TotalCount(store.rows) == |store.log| <==>
                forall k :: P.NoneStartsLate(readers, actions, window, k))
  {
    var actions := ActionsOf(turns, connections);
    ActionsSound(turns, connections);
    var _ := ActionsInTime(turns, connections);
    P.RunSavesReads(readers, actions, window);
    P.InTimeIsInOrder(readers, actions);
    P.RunSessionsExactly(readers, actions, window, key);
    P.RunCountsExactly(readers, actions, window);
    InTimePassages(readers, actions, window, reader, passageWindow, now);
  }

  /** If the payloads of TCP clients fit the columns, whatever LLRP readers send, nothing starts late. */
  lemma FittingStreamsToTable(connections: seq<Connection>, turns: seq<Turn>, window: int,
                              readers: map<int, Reader>, key: Key)
    requires TurnsInTime(turns) && PayloadsFit(connections)
    ensures Faithful(P.Run(readers, ActionsOf(turns, connections), window).store, key, window)
  {
    ActionsSound(turns, connections);
    var _ := ActionsInTime(turns, connections);
    FittingToTable(readers, ActionsOf(turns, connections), window, key);
  }

  // ----- bytes and faults -----

  predicate AllLlrp(connections: seq<Connection>) {
    forall c :: 0 <= c < |connections| ==> connections[c].Llrp?
  }

  /** Every read that the receivers hand on is that of an event received. */
  lemma {:induction false} ReadsComeFrom(readers: map<int, Reader>, actions: seq<P.Action>, window: int, i: nat)
    returns (j: nat)
    requires i < |P.Reads(readers, actions, window)|
    ensures j < |actions| && actions[j].Receive? && P.Reads(readers, actions, window)[i].event == actions[j].event
  {
    var earlier := P.Reads(readers, Front(actions), window);
    if i < |earlier| {
      j := ReadsComeFrom(readers, Front(actions), window, i);
    } else {
      j := |actions| - 1;
    }
  }

  lemma LlrpReadsAreStorable(connections: seq<Connection>, turns: seq<Turn>, window: int, readers: map<int, Reader>)
    requires AllLlrp(connections)
    ensures S.AllStorable(P.Reads(readers, ActionsOf(turns, connections), window))
  {
    var handed := P.Reads(readers, ActionsOf(turns, connections), window);
    forall i | 0 <= i < |handed|
      ensures B.Storable(handed[i])
    {
      var j := ReadsComeFrom(readers, ActionsOf(turns, connections), window, i);
      var c, k := ActionsComeFrom(turns, connections, j);
      var events := ConnectionsAreSound(connections[c]);
    }
  }

  /**
   * Whatever bytes LLRP readers send and whatever faults, starts and crashes the saves meet, no
   * read is lost: each that is handed to the repository, and each tried again, is stored, dropped
   * by the scheme filter or in the file.
   */
  lemma LlrpReadsAreNeverLost(connections: seq<Connection>, turns: seq<Turn>, window: int,
                              readers: map<int, Reader>, events: seq<S.Event>)
    requires AllLlrp(connections)
    requires S.ReceivedReads(events) == P.Reads(readers, ActionsOf(turns, connections), window)
    ensures S.NoneMissing(S.Run(S.Initial(readers), events, window),
                          P.Reads(readers, ActionsOf(turns, connections), window))
  {
    LlrpReadsAreStorable(connections, turns, window, readers);
    S.StorableAreKept(readers, events, window);
  }
}
