/**
 * The passage counter of app/api.py (`reader_passage`): how many distinct tags passed a reader
 * in the seconds up to its latest read. It is asked of the table, whose rows keep only their
 * last time; the results here compare it with the same question asked of the full log.
 */
module Passage {
  import opened Wrappers
  import opened Sequences
  import opened Rfid
  import opened Repository
  import opened Table
  import Sscc

  /** A tag seen at a reader: what the query looks at, in a row or in a log entry. */
  datatype Sighting = Sighting(readerId: int, epcHex: string, at: int)

  function RowSightings(rows: seq<TagRead>): (ss: seq<Sighting>)
    ensures |ss| == |rows|
    ensures forall i :: 0 <= i < |rows| ==> ss[i] == Sighting(rows[i].readerId, rows[i].epcHex, rows[i].lastSeenAt)
  {
    seq(|rows|, i requires 0 <= i < |rows| => Sighting(rows[i].readerId, rows[i].epcHex, rows[i].lastSeenAt))
  }

  function LogSightings(log: seq<LogEntry>): (ss: seq<Sighting>)
    ensures |ss| == |log|
    ensures forall i :: 0 <= i < |log| ==> ss[i] == Sighting(log[i].key.readerId, log[i].key.epcHex, log[i].at)
  {
    seq(|log|, i requires 0 <= i < |log| => Sighting(log[i].key.readerId, log[i].key.epcHex, log[i].at))
  }

  // ----- the query -----

  function Latest(ss: seq<Sighting>, reader: int): (r: Option<int>)
    ensures r.None? <==> forall i :: 0 <= i < |ss| ==> ss[i].readerId != reader
    ensures r.Some? ==> exists i :: 0 <= i < |ss| && ss[i].readerId == reader && ss[i].at == r.value
    ensures r.Some? ==> forall i :: 0 <= i < |ss| && ss[i].readerId == reader ==> ss[i].at <= r.value
  {
    if ss == [] then None
    else
      var r := Latest(Front(ss), reader);
      if Last(ss).readerId == reader && (r.None? || r.value < Last(ss).at) then
        assert ss[|ss| - 1] == Last(ss);
        Some(Last(ss).at)
      else
        assert r.Some? ==> exists i :: 0 <= i < |Front(ss)| && ss[i].readerId == reader && ss[i].at == r.value;
        r
  }

  function EpcsSince(ss: seq<Sighting>, reader: int, start: int): set<string> {
    set i | 0 <= i < |ss| && ss[i].readerId == reader && ss[i].at >= start :: ss[i].epcHex
  }

  /** The tags of the passage: none when the reader's latest sighting is over 30 seconds old. */
  function PassageEpcs(ss: seq<Sighting>, reader: int, passageWindow: int, now: int): set<string> {
    match Latest(ss, reader)
    case None => {}
    case Some(latest) => if latest < now - 30_000_000 then {} else EpcsSince(ss, reader, latest - passageWindow)
  }

  /** The serial number of a tag, if it has one. */
  function SerialOf(epc: string): Option<string> {
    match Sscc.Sscc96WithoutCheckDigit(epc)
    case Ok(serial) => serial
    case Err(_) => None
  }

  /** The values of a function on a set of tags, tags without one left out. */
  ghost function Listed(epcs: set<string>, serialOf: string -> Option<string>): multiset<string> {
    if epcs == {} then multiset{}
    else
      var epc :| epc in epcs;
      Listed(epcs - {epc}, serialOf) + if serialOf(epc).Some? then multiset{serialOf(epc).value} else multiset{}
  }

  datatype PassageReport = ReaderNotFound | Report(readerId: int, total: nat, sscc: multiset<string>)

  ghost function ReaderPassage(readers: map<int, Reader>, ss: seq<Sighting>, reader: int, passageWindow: int,
      now: int): PassageReport {
    if reader !in readers then ReaderNotFound
    else
      var epcs := PassageEpcs(ss, reader, passageWindow, now);
      Report(reader, |epcs|, Listed(epcs, SerialOf))
  }

  // ----- the report, sighting by sighting -----

  function WithSerial(epcs: set<string>, serialOf: string -> Option<string>, serial: string): set<string> {
    set epc | epc in epcs && serialOf(epc) == Some(serial)
  }

  lemma ListedStep(epcs: set<string>, serialOf: string -> Option<string>) returns (epc: string)
    requires epcs != {}
    ensures epc in epcs
    ensures Listed(epcs, serialOf) ==
            Listed(epcs - {epc}, serialOf)
            + if serialOf(epc).Some? then multiset{serialOf(epc).value} else multiset{}
  {
    epc :| epc in epcs && Listed(epcs, serialOf) ==
             Listed(epcs - {epc}, serialOf)
             + if serialOf(epc).Some? then multiset{serialOf(epc).value} else multiset{};
  }

  lemma WithSerialStep(epcs: set<string>, serialOf: string -> Option<string>, serial: string, epc: string)
    requires epc in epcs
    ensures WithSerial(epcs, serialOf, serial) ==
            WithSerial(epcs - {epc}, serialOf, serial) + if serialOf(epc) == Some(serial) then {epc} else {}
    ensures epc !in WithSerial(epcs - {epc}, serialOf, serial)
  {
  }

  lemma {:induction false} ListedCount(epcs: set<string>, serialOf: string -> Option<string>, serial: string)
    ensures Listed(epcs, serialOf)[serial] == |WithSerial(epcs, serialOf, serial)|
  {
    if epcs == {} {
      assert WithSerial(epcs, serialOf, serial) == {};
    } else {
      var epc := ListedStep(epcs, serialOf);
      ListedCount(epcs - {epc}, serialOf, serial);
      WithSerialStep(epcs, serialOf, serial, epc);
    }
  }

  lemma SerialsExactly(epcs: set<string>, serial: string)
    ensures WithSerial(epcs, SerialOf, serial) ==
            set epc | epc in epcs && Sscc.Sscc96WithoutCheckDigit(epc) == Ok(Some(serial))
  {
  }

  /** No report for an unknown reader, and an empty one for a reader not seen in the last 30 seconds. */
  lemma ReportExactly(readers: map<int, Reader>, ss: seq<Sighting>, reader: int, passageWindow: int, now: int)
    ensures ReaderPassage(readers, ss, reader, passageWindow, now) == ReaderNotFound <==> reader !in readers
    ensures reader in readers ==> ReaderPassage(readers, ss, reader, passageWindow, now).readerId == reader
    ensures reader in readers && (forall i :: 0 <= i < |ss| && ss[i].readerId == reader ==> ss[i].at < now - 30_000_000)
            ==> ReaderPassage(readers, ss, reader, passageWindow, now) == Report(reader, 0, multiset{})
  {
  }

  /** The EPCs seen at the reader from a moment on. */
  lemma SeenSinceExactly(ss: seq<Sighting>, reader: int, start: int, epc: string)
    ensures epc in EpcsSince(ss, reader, start) <==>
            exists i :: 0 <= i < |ss| && ss[i].readerId == reader && ss[i].epcHex == epc && ss[i].at >= start
  {
  }

  /** The tags are those seen at the reader from the passage window before its latest sighting on. */
  ghost predicate Passed(ss: seq<Sighting>, reader: int, latest: int, passageWindow: int, seen: set<string>) {
    && (exists i :: 0 <= i < |ss| && ss[i].readerId == reader && ss[i].at == latest)
    && (forall i :: 0 <= i < |ss| && ss[i].readerId == reader ==> ss[i].at <= latest)
    && (forall epc :: epc in seen <==>
          exists i :: 0 <= i < |ss| && ss[i].readerId == reader && ss[i].epcHex == epc
                      && ss[i].at >= latest - passageWindow)
  }

  lemma PassedExactly(ss: seq<Sighting>, reader: int, latest: int, passageWindow: int, now: int, seen: set<string>)
    requires Passed(ss, reader, latest, passageWindow, seen) && latest >= now - 30_000_000
    ensures PassageEpcs(ss, reader, passageWindow, now) == seen
  {
    assert Latest(ss, reader) == Some(latest);
    forall epc
      ensures epc in EpcsSince(ss, reader, latest - passageWindow) <==> epc in seen
    {
      SeenSinceExactly(ss, reader, latest - passageWindow, epc);
    }
    assert EpcsSince(ss, reader, latest - passageWindow) == seen;
  }

  /**
   * Else, with these tags, the total is their number, and each serial number is listed as often as
   * there are tags among them that have it.
   */
  lemma ReportOfPassage(readers: map<int, Reader>, ss: seq<Sighting>, reader: int, passageWindow: int, now: int,
                        latest: int, seen: set<string>, serial: string)
    requires reader in readers && latest >= now - 30_000_000 && Passed(ss, reader, latest, passageWindow, seen)
    ensures var report := ReaderPassage(readers, ss, reader, passageWindow, now);
            && report.Report? && report.total == |seen|
            && report.sscc[serial] ==
               |set epc | epc in seen && Sscc.Sscc96WithoutCheckDigit(epc) == Ok(Some(serial))|
  {
    PassedExactly(ss, reader, latest, passageWindow, now, seen);
    ListedCount(seen, SerialOf, serial);
    SerialsExactly(seen, serial);
  }

  // ----- when two sources of sightings answer alike -----

  ghost predicate SeenSince(ss: seq<Sighting>, reader: int, epc: string, t: int) {
    exists i :: 0 <= i < |ss| && ss[i].readerId == reader && ss[i].epcHex == epc && ss[i].at >= t
  }

  /** The sources know, for every reader and tag, the same latest time. */
  ghost predicate Agree(a: seq<Sighting>, b: seq<Sighting>) {
    forall reader, epc, t :: SeenSince(a, reader, epc, t) <==> SeenSince(b, reader, epc, t)
  }

  lemma LatestNotLater(a: seq<Sighting>, b: seq<Sighting>, reader: int)
    requires Agree(a, b)
    ensures Latest(a, reader).Some? ==> Latest(b, reader).Some? && Latest(a, reader).value <= Latest(b, reader).value
  {
    var l := Latest(a, reader);
    if l.Some? {
      var i :| 0 <= i < |a| && a[i].readerId == reader && a[i].at == l.value;
      assert SeenSince(a, reader, a[i].epcHex, l.value);
      assert SeenSince(b, reader, a[i].epcHex, l.value);
    }
  }

  lemma SeenIsListed(ss: seq<Sighting>, reader: int, epc: string, t: int)
    ensures epc in EpcsSince(ss, reader, t) <==> SeenSince(ss, reader, epc, t)
  {
  }

  lemma AgreeingPassage(a: seq<Sighting>, b: seq<Sighting>, reader: int, passageWindow: int,
      now: int)
    requires Agree(a, b)
    ensures PassageEpcs(a, reader, passageWindow, now) == PassageEpcs(b, reader, passageWindow, now)
  {
    LatestNotLater(a, b, reader);
    LatestNotLater(b, a, reader);
    var l := Latest(a, reader);
    if l.Some? {
      var start := l.value - passageWindow;
      forall epc
        ensures epc in EpcsSince(a, reader, start) <==> epc in EpcsSince(b, reader, start)
      {
        SeenIsListed(a, reader, epc, start);
        SeenIsListed(b, reader, epc, start);
      }
      assert EpcsSince(a, reader, start) == EpcsSince(b, reader, start);
    }
  }

  ghost predicate SameAnswers(a: seq<Sighting>, b: seq<Sighting>) {
    forall reader, passageWindow: nat, now ::
      PassageEpcs(a, reader, passageWindow, now) == PassageEpcs(b, reader, passageWindow, now)
  }

  lemma SameAnswersSameLatest(a: seq<Sighting>, b: seq<Sighting>, reader: int)
    requires SameAnswers(a, b)
    ensures Latest(a, reader).Some? ==> Latest(b, reader).Some? && Latest(a, reader).value <= Latest(b, reader).value
  {
    var l := Latest(a, reader);
    if l.Some? {
      var i :| 0 <= i < |a| && a[i].readerId == reader && a[i].at == l.value;
      var now := l.value + 30_000_000;
      assert PassageEpcs(a, reader, 0, now) == PassageEpcs(b, reader, 0, now);
      SeenIsListed(a, reader, a[i].epcHex, l.value);
      assert a[i].epcHex in PassageEpcs(a, reader, 0, now);
    }
  }

  lemma SameAnswersSeen(a: seq<Sighting>, b: seq<Sighting>, reader: int, epc: string, t: int)
    requires SameAnswers(a, b) && SeenSince(a, reader, epc, t)
    ensures SeenSince(b, reader, epc, t)
  {
    SameAnswersSameLatest(a, b, reader);
    SameAnswersSameLatest(b, a, reader);
    var i :| 0 <= i < |a| && a[i].readerId == reader && a[i].epcHex == epc && a[i].at >= t;
    var latest := Latest(a, reader).value;
    var back := latest - a[i].at;
    assert PassageEpcs(a, reader, back, latest) == PassageEpcs(b, reader, back, latest);
    SeenIsListed(a, reader, epc, a[i].at);
    SeenIsListed(b, reader, epc, a[i].at);
    assert SeenSince(b, reader, epc, a[i].at);
  }

  /** Two sources give the same passages, at all readers, windows and moments, just when they agree. */
  lemma AgreeIsSameAnswers(a: seq<Sighting>, b: seq<Sighting>)
    ensures Agree(a, b) <==> SameAnswers(a, b)
  {
    if Agree(a, b) {
      forall reader, passageWindow: nat, now
        ensures PassageEpcs(a, reader, passageWindow, now) == PassageEpcs(b, reader, passageWindow, now)
      {
        AgreeingPassage(a, b, reader, passageWindow, now);
      }
    }
    if SameAnswers(a, b) {
      forall reader, epc, t
        ensures SeenSince(a, reader, epc, t) <==> SeenSince(b, reader, epc, t)
      {
        if SeenSince(a, reader, epc, t) {
          SameAnswersSeen(a, b, reader, epc, t);
        }
        if SeenSince(b, reader, epc, t) {
          SameAnswersSeen(b, a, reader, epc, t);
        }
      }
    }
  }

  // ----- one save -----

  /** Some other row of the same reader and tag was seen at least as late as row `i`. */
  predicate Covered(rows: seq<TagRead>, i: nat)
    requires i < |rows|
  {
    exists j :: 0 <= j < |rows| && j != i && rows[j].readerId == rows[i].readerId
             && rows[j].epcHex == rows[i].epcHex && rows[j].lastSeenAt >= rows[i].lastSeenAt
  }

  /** The save does not pull back the only row that remembers how late a tag was seen. */
  predicate KeepsLatest(rows: seq<TagRead>, key: Key, at: int, window: int) {
    match Newest(rows, key, at - window)
    case None => true
    case Some(i) => rows[i].lastSeenAt <= at || Covered(rows, i)
  }

  ghost predicate TableAgrees(store: Store) {
    Agree(RowSightings(store.rows), LogSightings(store.log))
  }

  lemma LogSeen(log: seq<LogEntry>, entry: LogEntry, reader: int, epc: string, t: int)
    ensures SeenSince(LogSightings(log + [entry]), reader, epc, t) <==>
            SeenSince(LogSightings(log), reader, epc, t)
            || (entry.key.readerId == reader && entry.key.epcHex == epc && entry.at >= t)
  {
    var ss, all := LogSightings(log), LogSightings(log + [entry]);
    assert all == ss + [Sighting(entry.key.readerId, entry.key.epcHex, entry.at)];
    assert all[|log|] == Sighting(entry.key.readerId, entry.key.epcHex, entry.at);
    assert forall i :: 0 <= i < |ss| ==> all[i] == ss[i];
  }

  lemma AddSeen(rows: seq<TagRead>, row: TagRead, reader: int, epc: string, t: int)
    ensures SeenSince(RowSightings(rows + [row]), reader, epc, t) <==>
            SeenSince(RowSightings(rows), reader, epc, t)
            || (row.readerId == reader && row.epcHex == epc && row.lastSeenAt >= t)
  {
    var ss, all := RowSightings(rows), RowSightings(rows + [row]);
    assert all[|rows|] == Sighting(row.readerId, row.epcHex, row.lastSeenAt);
    assert forall i :: 0 <= i < |ss| ==> all[i] == ss[i];
  }

  /** Replacing a row's time: what was seen before, or now; and nothing seen before is forgotten. */
  lemma ReplaceSeen(rows: seq<TagRead>, i: nat, row: TagRead, reader: int, epc: string, t: int)
    requires i < |rows| && RowKey(row) == RowKey(rows[i])
    requires rows[i].lastSeenAt <= row.lastSeenAt || Covered(rows, i)
    ensures SeenSince(RowSightings(rows[i := row]), reader, epc, t) <==>
            SeenSince(RowSightings(rows), reader, epc, t)
            || (row.readerId == reader && row.epcHex == epc && row.lastSeenAt >= t)
  {
    var ss, all := RowSightings(rows), RowSightings(rows[i := row]);
    assert all[i] == Sighting(row.readerId, row.epcHex, row.lastSeenAt);
    assert forall j :: 0 <= j < |ss| && j != i ==> all[j] == ss[j];
    if SeenSince(ss, reader, epc, t) {
      var j :| 0 <= j < |ss| && ss[j].readerId == reader && ss[j].epcHex == epc && ss[j].at >= t;
      if j == i && row.lastSeenAt < t {
        var k :| 0 <= k < |rows| && k != i && rows[k].readerId == rows[i].readerId
              && rows[k].epcHex == rows[i].epcHex && rows[k].lastSeenAt >= rows[i].lastSeenAt;
        assert all[k] == ss[k];
      } else {
        assert all[j].at >= t;
      }
    }
  }

  lemma PulledBack(rows: seq<TagRead>, i: nat, row: TagRead)
    requires i < |rows| && RowKey(row) == RowKey(rows[i])
    requires row.lastSeenAt < rows[i].lastSeenAt && !Covered(rows, i)
    ensures SeenSince(RowSightings(rows), row.readerId, row.epcHex, rows[i].lastSeenAt)
    ensures !SeenSince(RowSightings(rows[i := row]), row.readerId, row.epcHex, rows[i].lastSeenAt)
  {
    assert RowSightings(rows)[i].at == rows[i].lastSeenAt;
  }

  lemma UpsertSeen(rows: seq<TagRead>, a: AggregatedTagRead, key: Key, window: int, reader: int,
      epc: string, t: int)
    requires KeepsLatest(rows, key, a.lastSeenAt, window)
    ensures SeenSince(RowSightings(Upsert(rows, a, key, window)), reader, epc, t) <==>
            SeenSince(RowSightings(rows), reader, epc, t)
            || (key.readerId == reader && key.epcHex == epc && a.lastSeenAt >= t)
  {
    var r, rows', row := LookedUp(rows, a, key, window);
    if r.Some? {
      ReplaceSeen(rows, r.value, row, reader, epc, t);
    } else {
      AddSeen(rows, row, reader, epc, t);
    }
  }

  lemma AgreementStep(rows: seq<TagRead>, rows': seq<TagRead>, log: seq<LogEntry>, entry: LogEntry)
    requires Agree(RowSightings(rows), LogSightings(log))
    requires forall reader, epc, t ::
               SeenSince(RowSightings(rows'), reader, epc, t) <==>
               SeenSince(RowSightings(rows), reader, epc, t)
               || (entry.key.readerId == reader && entry.key.epcHex == epc && entry.at >= t)
    ensures Agree(RowSightings(rows'), LogSightings(log + [entry]))
  {
    forall reader, epc, t
      ensures SeenSince(RowSightings(rows'), reader, epc, t) <==> SeenSince(LogSightings(log + [entry]), reader, epc, t)
    {
      LogSeen(log, entry, reader, epc, t);
    }
  }

  lemma KeptAgreement(store: Store, a: AggregatedTagRead, window: int, key: Key)
    requires TableAgrees(store) && Judge(store.readers, a.event) == Accepted(key)
    requires KeepsLatest(store.rows, key, a.lastSeenAt, window)
    ensures TableAgrees(AfterSave(store, a, window))
  {
    var rows' := Upsert(store.rows, a, key, window);
    forall reader, epc, t
      ensures SeenSince(RowSightings(rows'), reader, epc, t) <==>
              SeenSince(RowSightings(store.rows), reader, epc, t)
              || (key.readerId == reader && key.epcHex == epc && a.lastSeenAt >= t)
    {
      UpsertSeen(store.rows, a, key, window, reader, epc, t);
    }
    AgreementStep(store.rows, rows', store.log, LogEntry(key, a.lastSeenAt));
  }

  lemma Disagree(a: seq<Sighting>, b: seq<Sighting>, reader: int, epc: string, t: int)
    requires !SeenSince(a, reader, epc, t) && SeenSince(b, reader, epc, t)
    ensures !Agree(a, b)
  {
  }

  lemma LostAgreement(rows: seq<TagRead>, log: seq<LogEntry>, a: AggregatedTagRead, key: Key, window: int)
    requires Agree(RowSightings(rows), LogSightings(log))
    requires !KeepsLatest(rows, key, a.lastSeenAt, window)
    ensures !Agree(RowSightings(Upsert(rows, a, key, window)), LogSightings(log + [LogEntry(key, a.lastSeenAt)]))
  {
    var i := Newest(rows, key, a.lastSeenAt - window).value;
    var row, late := Merged(rows[i], a), rows[i].lastSeenAt;
    PulledBack(rows, i, row);
    LogSeen(log, LogEntry(key, a.lastSeenAt), row.readerId, row.epcHex, late);
    Disagree(RowSightings(rows[i := row]), LogSightings(log + [LogEntry(key, a.lastSeenAt)]),
             row.readerId, row.epcHex, late);
  }

  /**
   * While the table answers like the log, an accepted save keeps it so exactly when it does not
   * pull back the only row that remembers how late its tag was seen.
   */
  lemma PassageStepExactly(store: Store, a: AggregatedTagRead, window: int, key: Key)
    requires TableAgrees(store) && Judge(store.readers, a.event) == Accepted(key)
    ensures TableAgrees(AfterSave(store, a, window)) <==> KeepsLatest(store.rows, key, a.lastSeenAt, window)
  {
    if KeepsLatest(store.rows, key, a.lastSeenAt, window) {
      KeptAgreement(store, a, window, key);
    } else {
      LostAgreement(store.rows, store.log, a, key, window);
    }
  }

  // ----- whole runs -----

  /** Every row's last time is that of a save of its key. */
  ghost predicate RowsLogged(store: Store) {
    forall i :: 0 <= i < |store.rows| ==> LogEntry(RowKey(store.rows[i]), store.rows[i].lastSeenAt) in store.log
  }

  lemma RowsLoggedStep(rows: seq<TagRead>, rows': seq<TagRead>, log: seq<LogEntry>, row: TagRead)
    requires forall i :: 0 <= i < |rows| ==> LogEntry(RowKey(rows[i]), rows[i].lastSeenAt) in log
    requires forall i :: 0 <= i < |rows'| ==> rows'[i] == row || (i < |rows| && rows'[i] == rows[i])
    ensures forall i :: 0 <= i < |rows'| ==>
              LogEntry(RowKey(rows'[i]), rows'[i].lastSeenAt) in log + [LogEntry(RowKey(row), row.lastSeenAt)]
  {
    forall i | 0 <= i < |rows'|
      ensures LogEntry(RowKey(rows'[i]), rows'[i].lastSeenAt) in log + [LogEntry(RowKey(row), row.lastSeenAt)]
    {
      assert rows'[i] == row || LogEntry(RowKey(rows[i]), rows[i].lastSeenAt) in log;
    }
  }

  lemma UpsertRowsLogged(store: Store, a: AggregatedTagRead, window: int)
    requires RowsLogged(store)
    ensures RowsLogged(AfterSave(store, a, window))
  {
    match Judge(store.readers, a.event)
    case Accepted(key) =>
      var row := UpsertOneRow(store.rows, a, key, window);
      RowsLoggedStep(store.rows, Upsert(store.rows, a, key, window), store.log, row);
    case _ =>
  }

  lemma InOrderKeepsLatest(store: Store, key: Key, at: int, window: int)
    requires RowsLogged(store) && InOrder(store.log + [LogEntry(key, at)])
    ensures KeepsLatest(store.rows, key, at, window)
  {
    var r, all := Newest(store.rows, key, at - window), store.log + [LogEntry(key, at)];
    if r.Some? {
      var e := LogEntry(key, store.rows[r.value].lastSeenAt);
      var j :| 0 <= j < |store.log| && store.log[j] == e;
      assert all[j] == e && all[|store.log|] == LogEntry(key, at);
    }
  }

  lemma {:induction false} RunAgrees(readers: map<int, Reader>, saves: seq<AggregatedTagRead>, window: int)
    requires InOrder(SaveAll(Store(readers, [], []), saves, window).log)
    ensures var store := SaveAll(Store(readers, [], []), saves, window);
            TableAgrees(store) && RowsLogged(store)
  {
    if saves != [] {
      var before, a := SaveAll(Store(readers, [], []), Front(saves), window), Last(saves);
      LogGrows(before, a, window);
      RunAgrees(readers, Front(saves), window);
      UpsertRowsLogged(before, a, window);
      match Judge(before.readers, a.event)
      case Accepted(key) =>
        InOrderKeepsLatest(before, key, a.lastSeenAt, window);
        KeptAgreement(before, a, window, key);
      case _ =>
    }
  }

  /**
   * The compressed table answers every passage query as the full log would: over any run of saves
   * in which each key's accepted times do not go back, whatever the duplicate window, whichever
   * reads were aggregated how, and for every reader, passage window and moment of asking.
   */
  lemma PassageFromTable(readers: map<int, Reader>, saves: seq<AggregatedTagRead>, window: int,
                         reader: int, passageWindow: int, now: int)
    requires InOrder(SaveAll(Store(readers, [], []), saves, window).log)
    ensures var store := SaveAll(Store(readers, [], []), saves, window);
            && ReaderPassage(store.readers, RowSightings(store.rows), reader, passageWindow, now)
            == ReaderPassage(store.readers, LogSightings(store.log), reader, passageWindow, now)
  {
    var store := SaveAll(Store(readers, [], []), saves, window);
    RunAgrees(readers, saves, window);
    AgreeingPassage(RowSightings(store.rows), LogSightings(store.log), reader, passageWindow, now);
  }
}
