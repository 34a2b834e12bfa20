/**
 * Any number of aggregators feeding one table, as app/main.py wires them: every receiver runs
 * its events through its own aggregator and hands the result to the shared repository.
 */
module Pipeline {
  import opened Sequences
  import opened Sessions
  import opened Rfid
  import opened Repository
  import opened Table

  /** An event reaches receiver `agg` at some time, or that receiver starts over with an empty memory. */
  datatype Action = Receive(agg: nat, event: TagEvent, at: int) | Restart(agg: nat)

  datatype State = State(aggs: map<nat, Entries>, store: Store)

  function EntriesOf(s: State, agg: nat): Entries {
    if agg in s.aggs then s.aggs[agg] else map[]
  }

  function Step(s: State, action: Action, window: int): State {
    match action
    case Restart(agg) => s.(aggs := s.aggs[agg := map[]])
    case Receive(agg, event, at) =>
      var a := Aggregate(EntriesOf(s, agg), event, at, window);
      State(s.aggs[agg := EntriesOf(s, agg)[KeyOf(event) := a]], AfterSave(s.store, a, window))
  }

  /** A run from empty aggregators and an empty table. */
  function Run(readers: map<int, Reader>, actions: seq<Action>, window: int): State {
    if actions == [] then State(map[], Store(readers, [], []))
    else Step(Run(readers, Front(actions), window), Last(actions), window)
  }

  /** The events carry EPC text that normalising leaves alone, as both parsers guarantee. */
  predicate AllCoherent(actions: seq<Action>) {
    forall i :: 0 <= i < |actions| && actions[i].Receive? ==> KeyCoherent(actions[i].event)
  }

  lemma {:induction false} ConfigurationStays(readers: map<int, Reader>, actions: seq<Action>, window: int)
    ensures SameConfiguration(readers, Run(readers, actions, window).store.readers)
  {
    if actions != [] {
      ConfigurationStays(readers, Front(actions), window);
    }
  }

  lemma CoherentKey(readers: map<int, Reader>, event: TagEvent)
    requires KeyCoherent(event)
    ensures JudgeKey(readers, KeyOf(event)).Accepted? ==> JudgeKey(readers, KeyOf(event)).key == KeyOf(event)
  {
  }

  // ----- what a run saves -----

  /** The reads that the receivers hand to the repository, in order. */
  function Reads(readers: map<int, Reader>, actions: seq<Action>, window: int): seq<AggregatedTagRead> {
    if actions == [] then []
    else
      var earlier, s := Reads(readers, Front(actions), window), Run(readers, Front(actions), window);
      match Last(actions)
      case Restart(_) => earlier
      case Receive(agg, event, at) => earlier + [Aggregate(EntriesOf(s, agg), event, at, window)]
  }

  /** The receipts that the repository accepts, as they are logged. */
  function Admitted(readers: map<int, Reader>, actions: seq<Action>): seq<LogEntry> {
    if actions == [] then []
    else
      var earlier := Admitted(readers, Front(actions));
      match Last(actions)
      case Restart(_) => earlier
      case Receive(_, event, at) =>
        match Judge(readers, event)
        case Accepted(key) => earlier + [LogEntry(key, at)]
        case _ => earlier
  }

  /** The database of a run is that of saving its reads, and its log is the accepted receipts. */
  lemma {:induction false} RunSavesReads(readers: map<int, Reader>, actions: seq<Action>, window: int)
    ensures Run(readers, actions, window).store ==
            SaveAll(Store(readers, [], []), Reads(readers, actions, window), window)
    ensures Run(readers, actions, window).store.log == Admitted(readers, actions)
  {
    if actions != [] {
      RunSavesReads(readers, Front(actions), window);
      match Last(actions)
      case Restart(_) =>
      case Receive(agg, event, at) =>
        var s := Run(readers, Front(actions), window);
        var a := Aggregate(EntriesOf(s, agg), event, at, window);
        assert a.event == event && a.lastSeenAt == at;
        ConfigurationStays(readers, Front(actions), window);
        ConfigurationDecides(readers, s.store.readers, event);
        FrontOfSnoc(Reads(readers, Front(actions), window), a);
    }
  }

  /** No event is received before the one before it. */
  ghost predicate InTime(actions: seq<Action>) {
    forall i, j :: 0 <= i <= j < |actions| && actions[i].Receive? && actions[j].Receive? ==>
      actions[i].at <= actions[j].at
  }

  lemma {:induction false} UpToLast(actions: seq<Action>) returns (last: int)
    ensures forall i :: 0 <= i < |actions| && actions[i].Receive? ==> actions[i].at <= last
  {
    last := 0;
    if actions != [] {
      last := UpToLast(Front(actions));
      if Last(actions).Receive? && last < Last(actions).at {
        last := Last(actions).at;
      }
    }
  }

  lemma {:induction false} AdmittedUpTo(readers: map<int, Reader>, actions: seq<Action>, last: int)
    requires InTime(actions)
    requires forall i :: 0 <= i < |actions| && actions[i].Receive? ==> actions[i].at <= last
    ensures InOrder(Admitted(readers, actions))
    ensures forall i :: 0 <= i < |Admitted(readers, actions)| ==> Admitted(readers, actions)[i].at <= last
  {
    if actions != [] {
      var e := actions[|actions| - 1];
      AdmittedUpTo(readers, Front(actions), if e.Receive? then e.at else last);
    }
  }

  /** Receipts in time order give saves in time order, per key and altogether. */
  lemma InTimeIsInOrder(readers: map<int, Reader>, actions: seq<Action>)
    requires InTime(actions)
    ensures InOrder(Admitted(readers, actions))
  {
    var last := UpToLast(actions);
    AdmittedUpTo(readers, actions, last);
  }

  // ----- sessions of a run -----

  /** What an aggregator has received since its last restart. */
  function Memory(actions: seq<Action>, agg: nat): seq<Stamped> {
    if actions == [] then []
    else
      var earlier := Memory(Front(actions), agg);
      match Last(actions)
      case Restart(g) => if g == agg then [] else earlier
      case Receive(g, event, at) => if g == agg then earlier + [Stamped(event, at)] else earlier
  }

  /** An aggregator summarises what it remembers, whatever the other aggregators do. */
  lemma {:induction false} MemoryIsSummarised(readers: map<int, Reader>, actions: seq<Action>, window: int, agg: nat)
    ensures Summarises(EntriesOf(Run(readers, actions, window), agg), Memory(actions, agg), window)
  {
    if actions != [] {
      MemoryIsSummarised(readers, Front(actions), window, agg);
      var s := Run(readers, Front(actions), window);
      match Last(actions)
      case Restart(g) =>
      case Receive(g, event, at) =>
        if g == agg {
          AggregateSummarises(EntriesOf(s, agg), Memory(Front(actions), agg), event, at, window);
        }
    }
  }

  lemma TimesStep(h: seq<Stamped>, e: Stamped)
    ensures Times(h + [e]) == Times(h) + [e.at]
  {
  }

  /** The read that stands for a history and one more event, from the times of the history. */
  lemma TrailingOfKept(h: seq<Stamped>, e: Stamped, kept: seq<int>, window: int)
    requires Times(h) == kept
    ensures var a := Trailing(h + [e], window);
            && a.event == e.event && a.lastSeenAt == e.at
            && (a.isDuplicate <==> Continues(kept, e.at, window))
            && (Continues(kept, e.at, window) ==>
                  a.seenCount == |Last(Runs(kept, window))| + 1 && a.firstSeenAt == Last(Runs(kept, window))[0])
  {
    TimesStep(h, e);
    RunsStep(kept, e.at, window);
  }

  /** What an aggregator makes of a read, from the times of its key that it remembers. */
  lemma RememberedAggregate(entries: Entries, memory: seq<Stamped>, kept: seq<int>, e: Stamped, window: int)
    returns (a: AggregatedTagRead)
    requires Summarises(entries, memory, window) && Times(Of(memory, KeyOf(e.event))) == kept
    ensures a == Aggregate(entries, e.event, e.at, window) && a.event == e.event && a.lastSeenAt == e.at
    ensures a.isDuplicate <==> Continues(kept, e.at, window)
    ensures Continues(kept, e.at, window) ==>
              a.seenCount == |Last(Runs(kept, window))| + 1 && a.firstSeenAt == Last(Runs(kept, window))[0]
  {
    a := Aggregate(entries, e.event, e.at, window);
    AggregateSummarises(entries, memory, e.event, e.at, window);
    OfSnoc(memory, e, KeyOf(e.event));
    TrailingOfKept(Of(memory, KeyOf(e.event)), e, kept, window);
  }

  /** The times of the key's events that an aggregator has received since its last restart. */
  function MemoryTimes(actions: seq<Action>, agg: nat, key: Key): seq<int> {
    Times(Of(Memory(actions, agg), key))
  }

  /** The times of the key's accepted events. */
  function AdmittedTimes(readers: map<int, Reader>, actions: seq<Action>, key: Key): seq<int> {
    TimesOf(Admitted(readers, actions), key)
  }

  /**
   * An accepted event starts a session of its key, although its aggregator remembers an event of
   * the key within the window: one that was refused for columns that do not make up the key.
   */
  predicate StartsLate(readers: map<int, Reader>, before: seq<Action>, action: Action, window: int, key: Key) {
    && action.Receive?
    && Judge(readers, action.event) == Accepted(key)
    && !Continues(AdmittedTimes(readers, before, key), action.at, window)
    && Continues(MemoryTimes(before, action.agg, key), action.at, window)
  }

  ghost predicate NoneStartsLate(readers: map<int, Reader>, actions: seq<Action>, window: int, key: Key) {
    actions == [] ||
    (NoneStartsLate(readers, Front(actions), window, key)
     && !StartsLate(readers, Front(actions), Last(actions), window, key))
  }

  /** An accepted read of the key starts a session just when the lookup finds no row. */
  lemma RunLookup(readers: map<int, Reader>, actions: seq<Action>, e: Stamped, window: int, key: Key)
    requires InOrder(Admitted(readers, actions) + [LogEntry(key, e.at)])
    ensures Newest(Run(readers, actions, window).store.rows, key, e.at - window).Some? <==>
            Continues(AdmittedTimes(readers, actions, key), e.at, window)
  {
    var handed, store := Reads(readers, actions, window), Run(readers, actions, window).store;
    InOrderPrefix(Admitted(readers, actions), LogEntry(key, e.at));
    RunSavesReads(readers, actions, window);
    TableFollows(readers, handed, window, key);
    var origins := Origins(Store(readers, [], []), handed, window, key);
    LookupFindsTheSession(store.rows, key, TimesOf(store.log, key), origins, e.at, window);
  }

  lemma RunAggregate(readers: map<int, Reader>, actions: seq<Action>, agg: nat, e: Stamped, window: int)
    returns (a: AggregatedTagRead)
    ensures a == Aggregate(EntriesOf(Run(readers, actions, window), agg), e.event, e.at, window)
    ensures a.event == e.event && a.lastSeenAt == e.at && a.seenCount >= 1 && (a.seenCount == 1 ==> Fresh(a))
    ensures var memory := MemoryTimes(actions, agg, KeyOf(e.event));
            && (a.isDuplicate <==> Continues(memory, e.at, window))
            && (Fresh(a) <==> !Continues(memory, e.at, window))
            && (Continues(memory, e.at, window) ==>
                  a.seenCount == |Last(Runs(memory, window))| + 1 && a.firstSeenAt == Last(Runs(memory, window))[0])
  {
    var entries := EntriesOf(Run(readers, actions, window), agg);
    MemoryIsSummarised(readers, actions, window, agg);
    a := RememberedAggregate(entries, Memory(actions, agg), MemoryTimes(actions, agg, KeyOf(e.event)), e, window);
  }

  lemma AddsLateHere(readers: map<int, Reader>, actions: seq<Action>, e: Stamped, agg: nat, window: int, key: Key)
    returns (s: State, a: AggregatedTagRead)
    requires KeyCoherent(e.event)
    requires InOrder(Admitted(readers, actions + [Receive(agg, e.event, e.at)]))
    ensures s == Run(readers, actions, window)
    ensures a == Aggregate(EntriesOf(s, agg), e.event, e.at, window)
    ensures Adds(s.store, a, window, key) && !Fresh(a) <==>
            StartsLate(readers, actions, Receive(agg, e.event, e.at), window, key)
  {
    s := Run(readers, actions, window);
    a := RunAggregate(readers, actions, agg, e, window);
    FrontOfSnoc(actions, Receive(agg, e.event, e.at));
    ConfigurationStays(readers, actions, window);
    ConfigurationDecides(readers, s.store.readers, e.event);
    CoherentKey(readers, e.event);
    if Judge(readers, e.event) == Accepted(key) {
      RunLookup(readers, actions, e, window, key);
    }
  }

  lemma AdmittedPrefix(readers: map<int, Reader>, actions: seq<Action>)
    requires actions != [] && InOrder(Admitted(readers, actions))
    ensures InOrder(Admitted(readers, Front(actions)))
  {
    var shorter, longer := Admitted(readers, Front(actions)), Admitted(readers, actions);
    assert forall i :: 0 <= i < |shorter| ==> longer[i] == shorter[i];
  }

  lemma {:induction false} ReadsNeverAddLate(
    readers: map<int, Reader>, actions: seq<Action>, window: int, key: Key)
    requires AllCoherent(actions) && InOrder(Admitted(readers, actions))
    ensures NeverAddsLate(Store(readers, [], []), Reads(readers, actions, window), window, key) <==>
            NoneStartsLate(readers, actions, window, key)
  {
    if actions != [] {
      var front, last := Front(actions), actions[|actions| - 1];
      assert AllCoherent(front);
      AdmittedPrefix(readers, actions);
      ReadsNeverAddLate(readers, front, window, key);
      if last.Receive? {
        Snoc(actions);
        RunSavesReads(readers, front, window);
        var s, a := AddsLateHere(readers, front, Stamped(last.event, last.at), last.agg, window, key);
        FrontOfSnoc(Reads(readers, front, window), a);
      }
    }
  }

  /**
   * Sessionisation of a run, exactly. However many receivers there are and however often any of
   * them restarts, if each key's saves come in time order then the rows of a key are exactly the
   * maximal sessions of its accepted events if and only if no event of the key starts late.
   */
  lemma RunSessionsExactly(readers: map<int, Reader>, actions: seq<Action>, window: int, key: Key)
    requires AllCoherent(actions) && InOrder(Admitted(readers, actions))
    ensures var store := Run(readers, actions, window).store;
            RecordsAll(RowsOf(store.rows, key), Runs(AdmittedTimes(readers, actions, key), window)) <==>
            NoneStartsLate(readers, actions, window, key)
  {
    RunSavesReads(readers, actions, window);
    ReadsNeverAddLate(readers, actions, window, key);
    SessionsExactly(readers, Reads(readers, actions, window), window, key);
  }

  /** A read of at least one event, and of more unless its times are one. */
  predicate StandsForEvents(a: AggregatedTagRead) {
    a.seenCount >= 1 && (a.seenCount == 1 ==> Fresh(a))
  }

  lemma {:induction false} ReadsStandForEvents(readers: map<int, Reader>, actions: seq<Action>, window: int, i: nat)
    requires i < |Reads(readers, actions, window)|
    ensures StandsForEvents(Reads(readers, actions, window)[i])
  {
    var last, earlier := Last(actions), Reads(readers, Front(actions), window);
    if i < |earlier| {
      ReadsStandForEvents(readers, Front(actions), window, i);
    } else {
      var a := RunAggregate(readers, Front(actions), last.agg, Stamped(last.event, last.at), window);
    }
  }

  lemma NoneLateIsNoneStartsLate(readers: map<int, Reader>, actions: seq<Action>, window: int)
    requires AllCoherent(actions) && InOrder(Admitted(readers, actions))
    ensures NoneLate(Store(readers, [], []), Reads(readers, actions, window), window) <==>
            forall key :: NoneStartsLate(readers, actions, window, key)
  {
    var start, handed := Store(readers, [], []), Reads(readers, actions, window);
    if NoneLate(start, handed, window) {
      forall key
        ensures NoneStartsLate(readers, actions, window, key)
      {
        assert NeverAddsLate(start, handed, window, key);
        ReadsNeverAddLate(readers, actions, window, key);
      }
    } else {
      var key :| !NeverAddsLate(start, handed, window, key);
      ReadsNeverAddLate(readers, actions, window, key);
    }
  }

  /** Conservation of a run, exactly: the counts add up just when no event of any key starts late. */
  lemma RunCountsExactly(readers: map<int, Reader>, actions: seq<Action>, window: int)
    requires AllCoherent(actions) && InOrder(Admitted(readers, actions))
    ensures TotalCount(Run(readers, actions, window).store.rows) == |Admitted(readers, actions)| <==>
            forall key :: NoneStartsLate(readers, actions, window, key)
  {
    var start, handed := Store(readers, [], []), Reads(readers, actions, window);
    RunSavesReads(readers, actions, window);
    forall i | 0 <= i < |handed|
      ensures StandsForEvents(handed[i])
    {
      ReadsStandForEvents(readers, actions, window, i);
    }
    ConservationExactly(start, handed, window);
    CountsAndSessions(start, handed, window);
    NoneLateIsNoneStartsLate(readers, actions, window);
  }

  // ----- events that fit their columns -----

  /** The key's events are never refused for the columns that do not make up the key. */
  predicate KeyFits(actions: seq<Action>, key: Key) {
    forall i :: 0 <= i < |actions| && actions[i].Receive? && KeyOf(actions[i].event) == key ==>
      FitsDetails(actions[i].event.details)
  }

  predicate AllFit(actions: seq<Action>) {
    forall i :: 0 <= i < |actions| && actions[i].Receive? ==> FitsDetails(actions[i].event.details)
  }

  /** For each read of the key, in order: did it come through the aggregator since its last restart? */
  function Remembered(actions: seq<Action>, agg: nat, key: Key): seq<bool> {
    if actions == [] then []
    else
      var earlier := Remembered(Front(actions), agg, key);
      match Last(actions)
      case Restart(g) => if g == agg then seq(|earlier|, _ => false) else earlier
      case Receive(g, event, _) => if KeyOf(event) == key then earlier + [g == agg] else earlier
  }

  lemma {:induction false} NothingKept(times: seq<int>)
    ensures Kept(times, seq(|times|, _ => false)) == []
  {
    if times != [] {
      assert Front(seq(|times|, _ => false)) == seq(|Front(times)|, _ => false);
      NothingKept(Front(times));
    }
  }

  lemma KeptStep(times: seq<int>, marks: seq<bool>, t: int, mark: bool)
    requires |marks| == |times|
    ensures Kept(times + [t], marks + [mark]) == if mark then Kept(times, marks) + [t] else Kept(times, marks)
  {
    FrontOfSnoc(times, t);
    FrontOfSnoc(marks, mark);
  }

  /** The remembered reads of an accepted key are the marked ones of all its reads. */
  ghost predicate RemembersMarked(log: seq<LogEntry>, memory: seq<Stamped>, marks: seq<bool>, key: Key) {
    |marks| == |TimesOf(log, key)| && Times(Of(memory, key)) == Kept(TimesOf(log, key), marks)
  }

  lemma RemembersStep(
    log: seq<LogEntry>, memory: seq<Stamped>, marks: seq<bool>, key: Key, e: Stamped, mine: bool)
    requires RemembersMarked(log, memory, marks, key) && KeyOf(e.event) == key
    ensures RemembersMarked(log + [LogEntry(key, e.at)], if mine then memory + [e] else memory, marks + [mine], key)
  {
    TimesOfAppend(log, LogEntry(key, e.at), key);
    KeptStep(TimesOf(log, key), marks, e.at, mine);
    OfSnoc(memory, e, key);
    TimesStep(Of(memory, key), e);
  }

  lemma AdmittedStep(readers: map<int, Reader>, actions: seq<Action>, agg: nat, event: TagEvent, at: int, key: Key)
    requires KeyCoherent(event) && JudgeKey(readers, key) == Accepted(key)
    requires KeyOf(event) == key ==> FitsDetails(event.details)
    ensures var before, after := Admitted(readers, actions), Admitted(readers, actions + [Receive(agg, event, at)]);
            && (KeyOf(event) != key ==> TimesOf(after, key) == TimesOf(before, key))
            && (KeyOf(event) == key ==> after == before + [LogEntry(key, at)])
  {
    FrontOfSnoc(actions, Receive(agg, event, at));
    CoherentKey(readers, event);
    TimesOfAppend(Admitted(readers, actions), LogEntry(KeyOf(event), at), key);
  }

  lemma {:induction false} MemoryIsMarked(readers: map<int, Reader>, actions: seq<Action>, agg: nat, key: Key)
    requires AllCoherent(actions) && KeyFits(actions, key) && JudgeKey(readers, key) == Accepted(key)
    ensures RemembersMarked(Admitted(readers, actions), Memory(actions, agg), Remembered(actions, agg, key), key)
  {
    if actions != [] {
      var front, last := Front(actions), actions[|actions| - 1];
      assert AllCoherent(front) && KeyFits(front, key);
      MemoryIsMarked(readers, front, agg, key);
      Snoc(actions);
      match last
      case Restart(g) =>
        NothingKept(AdmittedTimes(readers, front, key));
      case Receive(g, event, at) =>
        AdmittedStep(readers, front, g, event, at, key);
        OfSnoc(Memory(front, agg), Stamped(event, at), key);
        if KeyOf(event) == key {
          RemembersStep(Admitted(readers, front), Memory(front, agg), Remembered(front, agg, key), key,
                        Stamped(event, at), g == agg);
        }
    }
  }

  /** What an aggregator remembers of such a key ends no later than what the table holds. */
  lemma MemoryEndsEarlier(readers: map<int, Reader>, actions: seq<Action>, agg: nat, key: Key, t: int, window: int)
    requires AllCoherent(actions) && KeyFits(actions, key) && JudgeKey(readers, key) == Accepted(key)
    requires InOrder(Admitted(readers, actions))
    ensures Continues(MemoryTimes(actions, agg, key), t, window) ==>
              Continues(AdmittedTimes(readers, actions, key), t, window)
  {
    var times, marks := AdmittedTimes(readers, actions, key), Remembered(actions, agg, key);
    MemoryIsMarked(readers, actions, agg, key);
    SortedTimes(Admitted(readers, actions), key);
    if times != [] {
      MarkedSessions(times, marks, window);
    }
  }

  lemma {:induction false} FittingNeverStartLate(
    readers: map<int, Reader>, actions: seq<Action>, window: int, key: Key)
    requires AllCoherent(actions) && KeyFits(actions, key) && InOrder(Admitted(readers, actions))
    ensures NoneStartsLate(readers, actions, window, key)
  {
    if actions != [] {
      var front, last := Front(actions), actions[|actions| - 1];
      assert AllCoherent(front) && KeyFits(front, key);
      AdmittedPrefix(readers, actions);
      FittingNeverStartLate(readers, front, window, key);
      if last.Receive? && Judge(readers, last.event) == Accepted(key) {
        AcceptedKeyIsCanonical(readers, KeyOf(last.event));
        MemoryEndsEarlier(readers, front, last.agg, key, last.at, window);
      }
    }
  }

  /**
   * Sessionisation and conservation: if moreover every event fits its columns, the rows of each
   * key are its sessions and the counts add up to the number of accepted events.
   */
  lemma TableIsTheSessions(readers: map<int, Reader>, actions: seq<Action>, window: int, key: Key)
    requires AllCoherent(actions) && AllFit(actions) && InOrder(Admitted(readers, actions))
    ensures var store := Run(readers, actions, window).store;
            && RecordsAll(RowsOf(store.rows, key), Runs(AdmittedTimes(readers, actions, key), window))
            && TotalCount(store.rows) == |Admitted(readers, actions)|
  {
    forall other
      ensures NoneStartsLate(readers, actions, window, other)
    {
      FittingNeverStartLate(readers, actions, window, other);
    }
    RunSessionsExactly(readers, actions, window, key);
    RunCountsExactly(readers, actions, window);
  }

  // ----- an aggregator in step with the table -----

  /** The row says of the session what the aggregator says, and keeps the latest event's details. */
  predicate InStep(row: TagRead, a: AggregatedTagRead) {
    && row.firstSeenAt == a.firstSeenAt
    && row.lastSeenAt == a.lastSeenAt
    && row.seenCount == a.seenCount
    && row.details == StoredDetails(a.event.details)
  }

  /**
   * The two layers agree on a read: duplicate for the aggregator exactly when the table has a row
   * to merge into, and then both hold the same first time, last time, count and details.
   */
  predicate LayersAgree(entries: Entries, rows: seq<TagRead>, e: Stamped, window: int) {
    var a := Aggregate(entries, e.event, e.at, window);
    && (a.isDuplicate <==> Newest(rows, KeyOf(e.event), e.at - window).Some?)
    && InStep(TouchedRow(rows, a, KeyOf(e.event), window), a)
  }

  /**
   * The aggregator's account of the key's current session is the row's: the same first time and
   * count, where the row's start with those of the read that added it.
   */
  ghost predicate SameAccount(times: seq<int>, memory: seq<int>, origins: seq<AggregatedTagRead>, t: int, window: int) {
    if Continues(times, t, window) then
      && Continues(memory, t, window) && origins != []
      && Last(Runs(memory, window))[0] == Last(origins).firstSeenAt
      && |Last(Runs(memory, window))| == Last(origins).seenCount + |Last(Runs(times, window))| - 1
    else
      !Continues(memory, t, window)
  }

  lemma ContinuedAccount(rows: seq<TagRead>, a: AggregatedTagRead, key: Key, times: seq<int>, memory: seq<int>,
                         origins: seq<AggregatedTagRead>, window: int)
    requires FollowsAll(RowsOf(rows, key), Runs(times, window), origins)
    requires Sorted(times + [a.lastSeenAt]) && Continues(times, a.lastSeenAt, window)
    requires a.isDuplicate <==> Continues(memory, a.lastSeenAt, window)
    requires Continues(memory, a.lastSeenAt, window) ==>
               a.seenCount == |Last(Runs(memory, window))| + 1 && a.firstSeenAt == Last(Runs(memory, window))[0]
    ensures a.isDuplicate && InStep(TouchedRow(rows, a, key, window), a) <==>
            SameAccount(times, memory, origins, a.lastSeenAt, window)
  {
    LookupFindsTheSession(rows, key, times, origins, a.lastSeenAt, window);
    var rows', row, runs, origins' := UpsertGrows(rows, a, key, times, origins, window);
    RunsStep(times, a.lastSeenAt, window);
    assert Follows([row][0], [Last(runs)][0], [Last(origins')][0]);
  }

  /** The account of the session that the next read would continue, for a run. */
  ghost predicate AccountsAgree(
    readers: map<int, Reader>, actions: seq<Action>, agg: nat, e: Stamped, window: int, key: Key)
  {
    SameAccount(AdmittedTimes(readers, actions, key), MemoryTimes(actions, agg, key),
                Origins(Store(readers, [], []), Reads(readers, actions, window), window, key), e.at, window)
  }

  /**
   * When the two layers of duplicate suppression agree, for any run at all in order: the next
   * accepted read finds them in agreement if and only if it starts a session for both, or
   * continues one of which both have the same account.
   */
  lemma LayersAgreeExactly(readers: map<int, Reader>, actions: seq<Action>, agg: nat, e: Stamped, window: int)
    requires AllCoherent(actions) && KeyCoherent(e.event) && Judge(readers, e.event).Accepted?
    requires InOrder(Admitted(readers, actions + [Receive(agg, e.event, e.at)]))
    ensures var s := Run(readers, actions, window);
            LayersAgree(EntriesOf(s, agg), s.store.rows, e, window) <==>
            AccountsAgree(readers, actions, agg, e, window, KeyOf(e.event))
  {
    var key, store := KeyOf(e.event), Run(readers, actions, window).store;
    var handed, times := Reads(readers, actions, window), AdmittedTimes(readers, actions, key);
    FrontOfSnoc(actions, Receive(agg, e.event, e.at));
    CoherentKey(readers, e.event);
    InOrderPrefix(Admitted(readers, actions), LogEntry(key, e.at));
    RunSavesReads(readers, actions, window);
    TableFollows(readers, handed, window, key);
    RunLookup(readers, actions, e, window, key);
    var a := RunAggregate(readers, actions, agg, e, window);
    if Continues(times, e.at, window) {
      ContinuedAccount(store.rows, a, key, times, MemoryTimes(actions, agg, key),
                       Origins(Store(readers, [], []), handed, window, key), window);
    }
  }

  // ----- sessions that one aggregator remembers as a whole -----

  lemma SortedLast(times: seq<int>, t: int)
    requires times != [] && Sorted(times + [t])
    ensures Last(times) <= t
  {
    assert (times + [t])[|times| - 1] <= (times + [t])[|times|];
  }

  lemma SessionShare(log: seq<LogEntry>, key: Key, marks: seq<bool>, t: int, window: int)
    requires InOrder(log) && TimesOf(log, key) != [] && |marks| == |TimesOf(log, key)|
    requires Sorted(TimesOf(log, key) + [t])
    ensures var times := TimesOf(log, key);
            var session := Last(Runs(times, window));
            && KeptSessions(times, Kept(times, marks), Share(times, marks, window), window)
            && Share(times, marks, window) <= |session|
            && (Share(times, marks, window) == |session| <==> LastAllMarked(marks, |session|))
            && session[0] <= t
  {
    var times := TimesOf(log, key);
    SortedTimes(log, key);
    MarkedSessions(times, marks, window);
    FullShare(times, marks, window);
    SortedRuns(times, window);
    SessionStarts(times, window);
    SortedLast(times, t);
  }

  /** The remembered part of a session is the whole just when first time and length are. */
  lemma WholeShare(times: seq<int>, kept: seq<int>, share: nat, t: int, window: int)
    requires Continues(times, t, window) && Sorted(times + [t])
    requires KeptSessions(times, kept, share, window) && share <= |Last(Runs(times, window))|
    requires Last(Runs(times, window))[0] <= t
    ensures share == |Last(Runs(times, window))| <==>
            && Continues(kept, t, window)
            && Last(Runs(kept, window))[0] == Last(Runs(times, window))[0]
            && |Last(Runs(kept, window))| == |Last(Runs(times, window))|
  {
    var session := Last(Runs(times, window));
    if share == |session| {
      assert Last(kept) == Last(session) == Last(times);
    }
  }

  /** The read belongs to a session of its key that came through one aggregator as a whole. */
  ghost predicate SessionRemembered(
    readers: map<int, Reader>, actions: seq<Action>, agg: nat, e: Stamped, window: int)
  {
    var times := AdmittedTimes(readers, actions, KeyOf(e.event));
    Continues(times, e.at, window) ==>
      LastAllMarked(Remembered(actions, agg, KeyOf(e.event)), |Last(Runs(times, window))|)
  }

  lemma FreshAccount(times: seq<int>, memory: seq<int>, rows: seq<TagRead>, origins: seq<AggregatedTagRead>, t: int,
                     window: int)
    requires FollowsAll(rows, Runs(times, window), origins) && AllFresh(origins)
    requires Continues(times, t, window)
    ensures SameAccount(times, memory, origins, t, window) <==>
            && Continues(memory, t, window)
            && Last(Runs(memory, window))[0] == Last(Runs(times, window))[0]
            && |Last(Runs(memory, window))| == |Last(Runs(times, window))|
  {
    FollowsFront(rows, Runs(times, window), origins);
    assert Fresh(origins[|origins| - 1]);
  }

  lemma RememberedAccount(readers: map<int, Reader>, actions: seq<Action>, agg: nat, e: Stamped, window: int, key: Key)
    requires AllCoherent(actions) && KeyFits(actions, key) && key == KeyOf(e.event)
    requires JudgeKey(readers, key) == Accepted(key)
    requires InOrder(Admitted(readers, actions) + [LogEntry(key, e.at)])
    ensures AccountsAgree(readers, actions, agg, e, window, key) <==>
            SessionRemembered(readers, actions, agg, e, window)
  {
    var start, handed, log := Store(readers, [], []), Reads(readers, actions, window), Admitted(readers, actions);
    var times, marks := TimesOf(log, key), Remembered(actions, agg, key);
    InOrderPrefix(log, LogEntry(key, e.at));
    MemoryEndsEarlier(readers, actions, agg, key, e.at, window);
    if Continues(times, e.at, window) {
      RunSavesReads(readers, actions, window);
      TableFollows(readers, handed, window, key);
      FittingNeverStartLate(readers, actions, window, key);
      ReadsNeverAddLate(readers, actions, window, key);
      FreshOrigins(start, handed, window, key);
      FreshAccount(times, MemoryTimes(actions, agg, key), RowsOf(Run(readers, actions, window).store.rows, key),
                   Origins(start, handed, window, key), e.at, window);
      MemoryIsMarked(readers, actions, agg, key);
      SessionShare(log, key, marks, e.at, window);
      WholeShare(times, Kept(times, marks), Share(times, marks, window), e.at, window);
    }
  }

  /**
   * Lock-step, exactly. After any run of receipts and restarts of any number of receivers, in
   * order per key and with no event of the key too large for its columns, the next accepted read
   * finds the layers in agreement if and only if it starts a new session of its key, or every
   * read of the session it continues came through the same aggregator since its last restart.
   */
  lemma LockStepExactly(readers: map<int, Reader>, actions: seq<Action>, agg: nat, e: Stamped, window: int)
    requires AllCoherent(actions) && KeyCoherent(e.event) && Judge(readers, e.event).Accepted?
    requires KeyFits(actions, KeyOf(e.event))
    requires InOrder(Admitted(readers, actions + [Receive(agg, e.event, e.at)]))
    ensures var s := Run(readers, actions, window);
            LayersAgree(EntriesOf(s, agg), s.store.rows, e, window) <==>
            SessionRemembered(readers, actions, agg, e, window)
  {
    FrontOfSnoc(actions, Receive(agg, e.event, e.at));
    CoherentKey(readers, e.event);
    LayersAgreeExactly(readers, actions, agg, e, window);
    RememberedAccount(readers, actions, agg, e, window, KeyOf(e.event));
  }

  // ----- one aggregator that never restarts -----

  /** All events go through one aggregator that never restarts. */
  function Feed(events: seq<Stamped>): (actions: seq<Action>)
    ensures |actions| == |events|
  {
    seq(|events|, i requires 0 <= i < |events| => Receive(0, events[i].event, events[i].at))
  }

  lemma FeedStep(events: seq<Stamped>, e: Stamped)
    ensures Feed(events + [e]) == Feed(events) + [Receive(0, e.event, e.at)]
    ensures Front(Feed(events + [e])) == Feed(events)
    ensures AllCoherent(Feed(events + [e])) ==> AllCoherent(Feed(events)) && KeyCoherent(e.event)
  {
    var all := Feed(events + [e]);
    assert all == Feed(events) + [Receive(0, e.event, e.at)];
    assert forall i :: 0 <= i < |events| ==> Feed(events)[i] == all[i];
    assert all[|events|] == Receive(0, e.event, e.at);
  }

  lemma {:induction false} FeedIsRemembered(events: seq<Stamped>, key: Key)
    ensures Memory(Feed(events), 0) == events
    ensures forall i :: 0 <= i < |Remembered(Feed(events), 0, key)| ==> Remembered(Feed(events), 0, key)[i]
  {
    if events != [] {
      var front, e := Front(events), Last(events);
      Snoc(events);
      FeedStep(front, e);
      FrontOfSnoc(Feed(front), Receive(0, e.event, e.at));
      FeedIsRemembered(front, key);
    }
  }

  /** One aggregator that never restarts agrees with the table on every accepted read, in order. */
  lemma LockStep(readers: map<int, Reader>, events: seq<Stamped>, e: Stamped, window: int)
    requires AllCoherent(Feed(events + [e])) && KeyFits(Feed(events), KeyOf(e.event))
    requires InOrder(Admitted(readers, Feed(events + [e]))) && Judge(readers, e.event).Accepted?
    ensures var s := Run(readers, Feed(events), window); LayersAgree(EntriesOf(s, 0), s.store.rows, e, window)
  {
    FeedStep(events, e);
    FeedIsRemembered(events, KeyOf(e.event));
    LockStepExactly(readers, Feed(events), 0, e, window);
  }

  // ----- times in any order -----

  /** The aggregator's entry for a key and a row of the table describe the same session. */
  predicate Tracks(entries: Entries, rows: seq<TagRead>, key: Key, i: nat) {
    && key in entries
    && i < |rows|
    && RowKey(rows[i]) == key
    && rows[i].firstSeenAt == entries[key].firstSeenAt
    && rows[i].lastSeenAt == entries[key].lastSeenAt
    && rows[i].seenCount == entries[key].seenCount
  }

  /** Another row of the key within the window was seen later, or as late and is the older row. */
  ghost predicate Overtaken(rows: seq<TagRead>, i: nat, key: Key, cutoff: int)
    requires i < |rows|
  {
    exists j :: 0 <= j < |rows| && j != i && IsRecent(rows[j], key, cutoff) &&
      (rows[i].lastSeenAt < rows[j].lastSeenAt || (rows[i].lastSeenAt == rows[j].lastSeenAt && j < i))
  }

  /** The layers agree on the read, and a merge goes into the row that the entry tracks. */
  predicate StaysInStep(entries: Entries, rows: seq<TagRead>, e: Stamped, window: int, i: nat) {
    && LayersAgree(entries, rows, e, window)
    && (Newest(rows, KeyOf(e.event), e.at - window).Some? ==> Newest(rows, KeyOf(e.event), e.at - window).value == i)
  }

  /**
   * One step with times in any order, exactly: while a key's entry tracks a row, its next read
   * keeps the two in step if and only if no other row within the window has overtaken that row.
   * The entry then tracks the row the read was merged into or added as.
   */
  lemma StepInAnyOrder(entries: Entries, rows: seq<TagRead>, e: Stamped, window: int, i: nat)
    requires Tracks(entries, rows, KeyOf(e.event), i)
    ensures StaysInStep(entries, rows, e, window, i) <==> !Overtaken(rows, i, KeyOf(e.event), e.at - window)
    ensures var a := Aggregate(entries, e.event, e.at, window);
            StaysInStep(entries, rows, e, window, i) ==>
              Tracks(entries[KeyOf(e.event) := a], Upsert(rows, a, KeyOf(e.event), window),
                     KeyOf(e.event), if a.isDuplicate then i else |rows|)
  {
  }
}
