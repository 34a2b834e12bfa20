/**
 * The rows of tag_reads against the log of accepted saves, for any list of saves in time order:
 * each row stands for one session of its key, with the account of the read that added it.
 */
module Table {
  import opened Wrappers
  import opened Sequences
  import opened Sessions
  import opened Rfid
  import opened Repository

  /** For each key, accepted saves come in non-decreasing time order. */
  ghost predicate InOrder(log: seq<LogEntry>) {
    forall i, j :: 0 <= i <= j < |log| && log[i].key == log[j].key ==> log[i].at <= log[j].at
  }

  function TimesOf(log: seq<LogEntry>, key: Key): seq<int> {
    if log == [] then []
    else if Last(log).key == key then TimesOf(Front(log), key) + [Last(log).at]
    else TimesOf(Front(log), key)
  }

  lemma TimesOfAppend(log: seq<LogEntry>, entry: LogEntry, key: Key)
    ensures TimesOf(log + [entry], key) ==
            if entry.key == key then TimesOf(log, key) + [entry.at] else TimesOf(log, key)
  {
    assert Front(log + [entry]) == log;
  }

  lemma {:induction false} InTimesOf(log: seq<LogEntry>, key: Key, t: int)
    ensures t in TimesOf(log, key) <==> LogEntry(key, t) in log
  {
    if log != [] {
      InTimesOf(Front(log), key, t);
      assert log == Front(log) + [Last(log)];
    }
  }

  lemma {:induction false} SortedTimes(log: seq<LogEntry>, key: Key)
    requires InOrder(log)
    ensures Sorted(TimesOf(log, key))
  {
    if log != [] {
      var front, t := Front(log), Last(log).at;
      SortedTimes(front, key);
      if Last(log).key == key {
        var times := TimesOf(front, key);
        forall i | 0 <= i < |times|
          ensures times[i] <= t
        {
          InTimesOf(front, key, times[i]);
          var j :| 0 <= j < |front| && front[j] == LogEntry(key, times[i]);
          assert log[j] == front[j];
        }
      }
    }
  }

  lemma InOrderPrefix(log: seq<LogEntry>, entry: LogEntry)
    requires InOrder(log + [entry])
    ensures InOrder(log)
    ensures Sorted(TimesOf(log, entry.key) + [entry.at])
  {
    var all := log + [entry];
    assert forall i :: 0 <= i < |log| ==> log[i] == all[i];
    TimesOfAppend(log, entry, entry.key);
    SortedTimes(all, entry.key);
  }

  lemma LogGrows(s: Store, a: AggregatedTagRead, window: int)
    ensures InOrder(AfterSave(s, a, window).log) ==> InOrder(s.log)
  {
    var t := AfterSave(s, a, window);
    assert forall i :: 0 <= i < |s.log| ==> s.log[i] == t.log[i];
  }

  // ----- rows and sessions -----

  /** A row records the first time (twice), the last time and the length of a session. */
  predicate Records(row: TagRead, run: seq<int>) {
    && run != []
    && row.firstSeenAt == row.receivedAt == run[0]
    && row.lastSeenAt == Last(run)
    && row.seenCount == |run|
  }

  ghost predicate RecordsAll(rows: seq<TagRead>, runs: seq<seq<int>>) {
    && |rows| == |runs|
    && forall i :: 0 <= i < |rows| ==> Records(rows[i], runs[i])
  }

  /** A read that stands for one event. */
  predicate Fresh(a: AggregatedTagRead) {
    a.seenCount == 1 && a.firstSeenAt == a.lastSeenAt
  }

  /**
   * A row covers a session, from the save that added it to the last; the count starts with that
   * of the read that added it and the first time is that read's.
   */
  predicate Follows(row: TagRead, run: seq<int>, origin: AggregatedTagRead) {
    && run != []
    && row.receivedAt == origin.lastSeenAt == run[0]
    && row.lastSeenAt == Last(run)
    && row.firstSeenAt == origin.firstSeenAt
    && row.seenCount == origin.seenCount + |run| - 1
  }

  ghost predicate FollowsAll(rows: seq<TagRead>, runs: seq<seq<int>>, origins: seq<AggregatedTagRead>) {
    && |rows| == |runs| == |origins|
    && forall i :: 0 <= i < |rows| ==> Follows(rows[i], runs[i], origins[i])
  }

  ghost predicate AllFresh(origins: seq<AggregatedTagRead>) {
    forall i :: 0 <= i < |origins| ==> Fresh(origins[i])
  }

  /** The rows record the sessions just when they were all added for single events. */
  lemma FreshRecords(rows: seq<TagRead>, runs: seq<seq<int>>, origins: seq<AggregatedTagRead>)
    requires FollowsAll(rows, runs, origins)
    ensures RecordsAll(rows, runs) <==> AllFresh(origins)
  {
    forall i | 0 <= i < |rows|
      ensures Records(rows[i], runs[i]) <==> Fresh(origins[i])
    {
    }
  }

  lemma RowsAscend(rs: seq<TagRead>, times: seq<int>, origins: seq<AggregatedTagRead>, window: int)
    requires FollowsAll(rs, Runs(times, window), origins) && Sorted(times)
    ensures Ascending(rs)
    ensures window >= 0 ==> StrictlyAscending(rs)
  {
    SortedRuns(times, window);
    var runs := Runs(times, window);
    forall i, j | 0 <= i < j < |rs|
      ensures rs[i].lastSeenAt <= rs[j].lastSeenAt
      ensures window >= 0 ==> rs[i].lastSeenAt < rs[j].lastSeenAt
    {
      assert Follows(rs[i], runs[i], origins[i]) && Follows(rs[j], runs[j], origins[j]);
      assert Last(runs[i]) <= runs[j][0] && runs[j][0] - Last(runs[i]) > window;
      assert Sorted(runs[j]);
    }
  }

  /** The windowed lookup finds a row exactly when the session goes on, and then the key's last row. */
  lemma LookupFindsTheSession(rows: seq<TagRead>, key: Key, times: seq<int>, origins: seq<AggregatedTagRead>, t: int,
                              window: int)
    requires FollowsAll(RowsOf(rows, key), Runs(times, window), origins)
    requires Sorted(times + [t])
    ensures Newest(rows, key, t - window).Some? <==> Continues(times, t, window)
    ensures Newest(rows, key, t - window).Some? ==> IsLastOf(rows, Newest(rows, key, t - window).value, key)
  {
    var rs, all := RowsOf(rows, key), times + [t];
    assert forall i :: 0 <= i < |times| ==> times[i] == all[i];
    if times != [] {
      assert all[|times| - 1] <= all[|times|];
      assert Follows(rs[|rs| - 1], Last(Runs(times, window)), origins[|rs| - 1]);
    }
    RowsAscend(rs, times, origins, window);
    NewestIsLast(rows, key, t - window);
  }

  lemma FollowsSnoc(
    rs: seq<TagRead>, runs: seq<seq<int>>, origins: seq<AggregatedTagRead>, row: TagRead, run: seq<int>,
    origin: AggregatedTagRead)
    requires FollowsAll(rs, runs, origins) && Follows(row, run, origin)
    ensures FollowsAll(rs + [row], runs + [run], origins + [origin])
  {
  }

  lemma FollowsFront(rs: seq<TagRead>, runs: seq<seq<int>>, origins: seq<AggregatedTagRead>)
    requires FollowsAll(rs, runs, origins) && rs != []
    ensures FollowsAll(Front(rs), Front(runs), Front(origins)) && Follows(Last(rs), Last(runs), Last(origins))
  {
    assert Follows(rs[|rs| - 1], runs[|runs| - 1], origins[|origins| - 1]);
  }

  /** The key's rows after an upsert, and the touched row as the last of them. */
  ghost predicate Grown(
    rows': seq<TagRead>, row: TagRead, key: Key, runs: seq<seq<int>>, origins: seq<AggregatedTagRead>)
  {
    && FollowsAll(RowsOf(rows', key), runs, origins) && origins != []
    && FollowsAll([row], [Last(runs)], [Last(origins)])
  }

  lemma MergeGrows(rows: seq<TagRead>, i: nat, a: AggregatedTagRead, key: Key, times: seq<int>,
                   origins: seq<AggregatedTagRead>, window: int)
    requires IsLastOf(rows, i, key)
    requires FollowsAll(RowsOf(rows, key), Runs(times, window), origins)
    requires Continues(times, a.lastSeenAt, window)
    ensures Grown(rows[i := Merged(rows[i], a)], Merged(rows[i], a), key, Runs(times + [a.lastSeenAt], window), origins)
  {
    var rs, runs, row := RowsOf(rows, key), Runs(times, window), Merged(rows[i], a);
    var run := Last(runs) + [a.lastSeenAt];
    LastRowOf(rows, i, key, row);
    RunsStep(times, a.lastSeenAt, window);
    FollowsFront(rs, runs, origins);
    FollowsSnoc(Front(rs), Front(runs), Front(origins), row, run, Last(origins));
    Snoc(origins);
  }

  lemma CreateGrows(rows: seq<TagRead>, a: AggregatedTagRead, key: Key, times: seq<int>,
                    origins: seq<AggregatedTagRead>, window: int)
    requires FollowsAll(RowsOf(rows, key), Runs(times, window), origins)
    requires !Continues(times, a.lastSeenAt, window)
    ensures Grown(rows + [Created(a, key)], Created(a, key), key, Runs(times + [a.lastSeenAt], window), origins + [a])
  {
    RowsOfAppend(rows, Created(a, key), key);
    RunsStep(times, a.lastSeenAt, window);
    FollowsSnoc(RowsOf(rows, key), Runs(times, window), origins, Created(a, key), [a.lastSeenAt], a);
  }

  lemma LookedUp(rows: seq<TagRead>, a: AggregatedTagRead, key: Key, window: int)
    returns (r: Option<nat>, rows': seq<TagRead>, row: TagRead)
    ensures r == Newest(rows, key, a.lastSeenAt - window)
    ensures rows' == Upsert(rows, a, key, window) && row == TouchedRow(rows, a, key, window)
    ensures r.Some? ==> r.value < |rows| && row == Merged(rows[r.value], a) && rows' == rows[r.value := row]
    ensures r.None? ==> row == Created(a, key) && rows' == rows + [row]
  {
    r := Newest(rows, key, a.lastSeenAt - window);
    rows', row := Upsert(rows, a, key, window), TouchedRow(rows, a, key, window);
  }

  lemma UpsertGrows(rows: seq<TagRead>, a: AggregatedTagRead, key: Key, times: seq<int>,
                    origins: seq<AggregatedTagRead>, window: int)
    returns (rows': seq<TagRead>, row: TagRead, runs: seq<seq<int>>, origins': seq<AggregatedTagRead>)
    requires FollowsAll(RowsOf(rows, key), Runs(times, window), origins)
    requires Sorted(times + [a.lastSeenAt])
    ensures rows' == Upsert(rows, a, key, window) && row == TouchedRow(rows, a, key, window)
    ensures runs == Runs(times + [a.lastSeenAt], window)
    ensures origins' == if Newest(rows, key, a.lastSeenAt - window).None? then origins + [a] else origins
    ensures Grown(rows', row, key, runs, origins')
  {
    LookupFindsTheSession(rows, key, times, origins, a.lastSeenAt, window);
    runs := Runs(times + [a.lastSeenAt], window);
    var r;
    r, rows', row := LookedUp(rows, a, key, window);
    if r.Some? {
      origins' := origins;
      MergeGrows(rows, r.value, a, key, times, origins, window);
    } else {
      origins' := origins + [a];
      CreateGrows(rows, a, key, times, origins, window);
    }
  }

  lemma UpsertKeepsOthers(rows: seq<TagRead>, a: AggregatedTagRead, key: Key, window: int,
      other: Key)
    requires other != key
    ensures RowsOf(Upsert(rows, a, key, window), other) == RowsOf(rows, other)
  {
    match Newest(rows, key, a.lastSeenAt - window)
    case Some(i) => RowsOfOther(rows, i, Merged(rows[i], a), other);
    case None => RowsOfAppend(rows, Created(a, key), other);
  }

  // ----- any saves in order -----

  /** The save adds a row of the key. */
  predicate Adds(s: Store, a: AggregatedTagRead, window: int, key: Key) {
    Judge(s.readers, a.event) == Accepted(key) && Newest(s.rows, key, a.lastSeenAt - window).None?
  }

  /** The reads that the rows of the key were added for. */
  function Origins(s: Store, saves: seq<AggregatedTagRead>, window: int, key: Key): seq<AggregatedTagRead> {
    if saves == [] then []
    else
      Origins(s, Front(saves), window, key)
      + if Adds(SaveAll(s, Front(saves), window), Last(saves), window, key) then [Last(saves)] else []
  }

  lemma OwnGrows(s: Store, a: AggregatedTagRead, window: int, key: Key, origins: seq<AggregatedTagRead>)
    returns (rows': seq<TagRead>, times': seq<int>, origins': seq<AggregatedTagRead>)
    requires FollowsAll(RowsOf(s.rows, key), Runs(TimesOf(s.log, key), window), origins)
    requires InOrder(s.log + [LogEntry(key, a.lastSeenAt)])
    ensures rows' == Upsert(s.rows, a, key, window)
    ensures times' == TimesOf(s.log + [LogEntry(key, a.lastSeenAt)], key)
    ensures origins' == if Newest(s.rows, key, a.lastSeenAt - window).None? then origins + [a] else origins
    ensures FollowsAll(RowsOf(rows', key), Runs(times', window), origins')
  {
    InOrderPrefix(s.log, LogEntry(key, a.lastSeenAt));
    TimesOfAppend(s.log, LogEntry(key, a.lastSeenAt), key);
    times' := TimesOf(s.log, key) + [a.lastSeenAt];
    var row, runs;
    rows', row, runs, origins' := UpsertGrows(s.rows, a, key, TimesOf(s.log, key), origins, window);
  }

  lemma SaveGrows(s: Store, a: AggregatedTagRead, window: int, key: Key, origins: seq<AggregatedTagRead>)
    requires FollowsAll(RowsOf(s.rows, key), Runs(TimesOf(s.log, key), window), origins)
    requires InOrder(AfterSave(s, a, window).log)
    ensures var t := AfterSave(s, a, window);
            FollowsAll(RowsOf(t.rows, key), Runs(TimesOf(t.log, key), window),
                       origins + if Adds(s, a, window, key) then [a] else [])
  {
    AppendNothing(origins);
    match Judge(s.readers, a.event)
    case Accepted(at) =>
      if at == key {
        var rows', times', origins' := OwnGrows(s, a, window, key, origins);
      } else {
        TimesOfAppend(s.log, LogEntry(at, a.lastSeenAt), key);
        UpsertKeepsOthers(s.rows, a, at, window, key);
      }
    case _ =>
  }

  /**
   * The table over any saves in order, whatever the reads stand for and however they came to be
   * saved: the rows of a key are one per session of its accepted saves, from its first save to
   * its last, with the count and first time of the read that added it carried along.
   */
  lemma {:induction false} TableFollows(
    readers: map<int, Reader>, saves: seq<AggregatedTagRead>, window: int, key: Key)
    requires InOrder(SaveAll(Store(readers, [], []), saves, window).log)
    ensures var start, store := Store(readers, [], []), SaveAll(Store(readers, [], []), saves, window);
            FollowsAll(RowsOf(store.rows, key), Runs(TimesOf(store.log, key), window),
                       Origins(start, saves, window, key))
  {
    if saves != [] {
      var start := Store(readers, [], []);
      var s := SaveAll(start, Front(saves), window);
      LogGrows(s, Last(saves), window);
      TableFollows(readers, Front(saves), window, key);
      SaveGrows(s, Last(saves), window, key, Origins(start, Front(saves), window, key));
    }
  }

  /** No save of the list adds a row of the key for a read that stands for more than one event. */
  ghost predicate NeverAddsLate(s: Store, saves: seq<AggregatedTagRead>, window: int, key: Key) {
    saves == [] ||
    (NeverAddsLate(s, Front(saves), window, key)
     && (Adds(SaveAll(s, Front(saves), window), Last(saves), window, key) ==> Fresh(Last(saves))))
  }

  lemma FreshSnoc(origins: seq<AggregatedTagRead>, a: AggregatedTagRead)
    ensures AllFresh(origins + [a]) <==> AllFresh(origins) && Fresh(a)
  {
    var all := origins + [a];
    assert all[|origins|] == a && forall i :: 0 <= i < |origins| ==> all[i] == origins[i];
  }

  lemma {:induction false} FreshOrigins(s: Store, saves: seq<AggregatedTagRead>, window: int, key: Key)
    ensures AllFresh(Origins(s, saves, window, key)) <==> NeverAddsLate(s, saves, window, key)
  {
    if saves != [] {
      FreshOrigins(s, Front(saves), window, key);
      FreshSnoc(Origins(s, Front(saves), window, key), Last(saves));
      AppendNothing(Origins(s, Front(saves), window, key));
    }
  }

  /**
   * Sessionisation, exactly: over any saves in order, the rows of a key record its sessions if
   * and only if no save adds a row of it for a read that already stands for several events.
   */
  lemma SessionsExactly(readers: map<int, Reader>, saves: seq<AggregatedTagRead>, window: int, key: Key)
    requires InOrder(SaveAll(Store(readers, [], []), saves, window).log)
    ensures var start, store := Store(readers, [], []), SaveAll(Store(readers, [], []), saves, window);
            RecordsAll(RowsOf(store.rows, key), Runs(TimesOf(store.log, key), window)) <==>
            NeverAddsLate(start, saves, window, key)
  {
    var start, store := Store(readers, [], []), SaveAll(Store(readers, [], []), saves, window);
    TableFollows(readers, saves, window, key);
    FreshOrigins(start, saves, window, key);
    FreshRecords(RowsOf(store.rows, key), Runs(TimesOf(store.log, key), window), Origins(start, saves, window, key));
  }

  /** Rows of a key cover disjoint intervals, more than the window apart and in order. */
  lemma RowsAreApart(readers: map<int, Reader>, saves: seq<AggregatedTagRead>, window: int, key: Key, i: nat, j: nat)
    requires InOrder(SaveAll(Store(readers, [], []), saves, window).log)
    requires i < j < |RowsOf(SaveAll(Store(readers, [], []), saves, window).rows, key)|
    ensures var rs := RowsOf(SaveAll(Store(readers, [], []), saves, window).rows, key);
            && rs[i].receivedAt <= rs[i].lastSeenAt <= rs[j].receivedAt <= rs[j].lastSeenAt
            && rs[j].receivedAt - rs[i].lastSeenAt > window
  {
    TableFollows(readers, saves, window, key);
    var store := SaveAll(Store(readers, [], []), saves, window);
    var rs, runs := RowsOf(store.rows, key), Runs(TimesOf(store.log, key), window);
    var origins := Origins(Store(readers, [], []), saves, window, key);
    SortedTimes(store.log, key);
    SortedRuns(TimesOf(store.log, key), window);
    assert Follows(rs[i], runs[i], origins[i]) && Follows(rs[j], runs[j], origins[j]);
    assert Sorted(runs[i]) && Sorted(runs[j]);
  }

  /** Every accepted save lies within the interval of a row of its key. */
  lemma EverySaveInARow(readers: map<int, Reader>, saves: seq<AggregatedTagRead>, window: int, entry: LogEntry)
    returns (r: nat)
    requires InOrder(SaveAll(Store(readers, [], []), saves, window).log)
    requires entry in SaveAll(Store(readers, [], []), saves, window).log
    ensures var rs := RowsOf(SaveAll(Store(readers, [], []), saves, window).rows, entry.key);
            r < |rs| && rs[r].receivedAt <= entry.at <= rs[r].lastSeenAt
  {
    var store := SaveAll(Store(readers, [], []), saves, window);
    var times := TimesOf(store.log, entry.key);
    var origins := Origins(Store(readers, [], []), saves, window, entry.key);
    TableFollows(readers, saves, window, entry.key);
    InTimesOf(store.log, entry.key, entry.at);
    var i :| 0 <= i < |times| && times[i] == entry.at;
    var p;
    r, p := EveryTimeInARun(times, window, i);
    SortedTimes(store.log, entry.key);
    SortedRuns(times, window);
    assert Follows(RowsOf(store.rows, entry.key)[r], Runs(times, window)[r], origins[r]);
    assert Sorted(Runs(times, window)[r]);
  }

  ghost predicate AddsSome(s: Store, a: AggregatedTagRead, window: int) {
    exists key :: Adds(s, a, window, key)
  }

  lemma AddsOnce(s: Store, a: AggregatedTagRead, window: int)
    ensures CountsTwice(s, a, window) <==> a.seenCount != 1 && AddsSome(s, a, window)
  {
    if CountsTwice(s, a, window) {
      assert Adds(s, a, window, Judge(s.readers, a.event).key);
    }
  }

  lemma LateStep(s: Store, saves: seq<AggregatedTagRead>, window: int, key: Key)
    requires saves != []
    ensures NeverAddsLate(s, saves, window, key) <==>
            NeverAddsLate(s, Front(saves), window, key)
            && (Adds(SaveAll(s, Front(saves), window), Last(saves), window, key) ==> Fresh(Last(saves)))
  {
  }

  ghost predicate NoneLate(s: Store, saves: seq<AggregatedTagRead>, window: int) {
    forall key :: NeverAddsLate(s, saves, window, key)
  }

  lemma NoneLateStep(s: Store, saves: seq<AggregatedTagRead>, window: int)
    requires saves != []
    ensures NoneLate(s, saves, window) <==>
            NoneLate(s, Front(saves), window)
            && (AddsSome(SaveAll(s, Front(saves), window), Last(saves), window) ==> Fresh(Last(saves)))
  {
    var m := SaveAll(s, Front(saves), window);
    if NoneLate(s, saves, window) {
      forall key
        ensures NeverAddsLate(s, Front(saves), window, key)
        ensures Adds(m, Last(saves), window, key) ==> Fresh(Last(saves))
      {
        assert NeverAddsLate(s, saves, window, key);
        LateStep(s, saves, window, key);
      }
    } else {
      var key :| !NeverAddsLate(s, saves, window, key);
      LateStep(s, saves, window, key);
    }
  }

  lemma CountsStep(s: Store, saves: seq<AggregatedTagRead>, window: int)
    requires saves != [] && (Last(saves).seenCount == 1 ==> Fresh(Last(saves)))
    ensures NeverCountsTwice(s, saves, window) <==>
            NeverCountsTwice(s, Front(saves), window)
            && (AddsSome(SaveAll(s, Front(saves), window), Last(saves), window) ==> Fresh(Last(saves)))
  {
    AddsOnce(SaveAll(s, Front(saves), window), Last(saves), window);
  }

  /** For reads that stand for one event just when their count is one, the two exact conditions agree. */
  lemma {:induction false} CountsAndSessions(s: Store, saves: seq<AggregatedTagRead>, window: int)
    requires forall i :: 0 <= i < |saves| && saves[i].seenCount == 1 ==> Fresh(saves[i])
    ensures NeverCountsTwice(s, saves, window) <==> NoneLate(s, saves, window)
  {
    if saves != [] {
      CountsAndSessions(s, Front(saves), window);
      assert Last(saves) == saves[|saves| - 1];
      CountsStep(s, saves, window);
      NoneLateStep(s, saves, window);
    }
  }
}
