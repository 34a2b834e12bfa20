/** The tag_reads table and TagReadRepository.save of app/tag_read_repository.py. */
module Repository {
  import opened Wrappers
  import opened Epc
  import opened Sequences
  import opened Rfid

  datatype Reader = Reader(
    epcSchemes: Option<seq<string>>, status: string, lastSeenAt: Option<int>, lastDataAt: Option<int>)

  datatype TagRead = TagRead(
    readerId: int, readerIp: Address, epcHex: string, epcBitLength: nat,
    antenna: Option<int>, details: Details,
    receivedAt: int, firstSeenAt: int, lastSeenAt: int, seenCount: nat, parseStatus: string)

  datatype SaveError = BadEpc(error: EpcError) | UnregisteredReader(readerId: int) | ColumnOverflow

  // ----- what the columns hold -----

  predicate FitsInteger(n: Option<int>) {
    n.None? || -0x8000_0000 <= n.value < 0x8000_0000
  }

  /** PostgreSQL refuses NUL characters, and characters beyond the width of the column but blanks. */
  predicate FitsText(text: Option<string>, width: nat) {
    text.Some? ==>
      forall i :: 0 <= i < |text.value| ==> text.value[i] != '\0' && (i >= width ==> text.value[i] == ' ')
  }

  /** Blanks beyond the width of the column are dropped. */
  function CutText(text: Option<string>, width: nat): Option<string> {
    if text.Some? && |text.value| > width then Some(text.value[..width]) else text
  }

  /** The key columns: EPCs of at most 128 characters, antennas of 32 bits. */
  predicate FitsColumns(key: Key) {
    |key.epcHex| <= 128 && FitsInteger(key.antenna)
  }

  /** The columns with limits that both a new row and a merge write. */
  predicate FitsDetails(d: Details) {
    FitsInteger(d.channel) && FitsText(d.direction, 64) && FitsText(d.zone, 255) && FitsText(d.location, 255)
  }

  /** The details as the columns keep them. */
  function StoredDetails(d: Details): Details {
    d.(direction := CutText(d.direction, 64), zone := CutText(d.zone, 255), location := CutText(d.location, 255))
  }

  lemma StoredDetailsFit(d: Details)
    requires FitsDetails(d)
    ensures FitsDetails(StoredDetails(d)) && StoredDetails(StoredDetails(d)) == StoredDetails(d)
  {
  }

  // ----- which reads are accepted -----

  /**
   * What becomes of a read that meets no outage. The last refusal is the database's: it does not
   * take values that overflow a column, and a row that is not there cannot be merged into.
   */
  datatype Verdict = Refused(error: SaveError) | Filtered | Accepted(key: Key)

  function JudgeKey(readers: map<int, Reader>, key: Key): Verdict {
    match ParseEpc(key.epcHex)
    case Err(e) => Refused(BadEpc(e))
    case Ok(epc) =>
      NormalizeIsIdempotent(key.epcHex);
      if key.readerId !in readers then Refused(UnregisteredReader(key.readerId))
      else if !EpcSchemeIsAllowed(epc.hexValue, readers[key.readerId].epcSchemes) then Filtered
      else if !FitsColumns(key.(epcHex := epc.hexValue)) then Refused(ColumnOverflow)
      else Accepted(key.(epcHex := epc.hexValue))
  }

  function Judge(readers: map<int, Reader>, event: TagEvent): Verdict {
    var verdict := JudgeKey(readers, KeyOf(event));
    if verdict.Accepted? && !FitsDetails(event.details) then Refused(ColumnOverflow) else verdict
  }

  /** Two reader tables with the same readers and the same scheme filters. */
  ghost predicate SameConfiguration(r1: map<int, Reader>, r2: map<int, Reader>) {
    && r1.Keys == r2.Keys
    && forall id :: id in r1 ==> r1[id].epcSchemes == r2[id].epcSchemes
  }

  /** The limits of the columns, value by value. */
  lemma FitsExactly(d: Details)
    ensures FitsDetails(d) <==>
            && (d.channel.Some? ==> -2_147_483_648 <= d.channel.value <= 2_147_483_647)
            && (d.direction.Some? ==> '\0' !in d.direction.value && forall i :: 64 <= i < |d.direction.value| ==>
                                        d.direction.value[i] == ' ')
            && (d.zone.Some? ==> '\0' !in d.zone.value && forall i :: 255 <= i < |d.zone.value| ==>
                                   d.zone.value[i] == ' ')
            && (d.location.Some? ==> '\0' !in d.location.value && forall i :: 255 <= i < |d.location.value| ==>
                                       d.location.value[i] == ' ')
  {
  }

  /** What the columns keep: all of it, but for what lies beyond the widths. */
  lemma KeptExactly(d: Details)
    ensures var k := StoredDetails(d);
            && k.direction == (match d.direction case None => None
                               case Some(x) => Some(if |x| <= 64 then x else x[..64]))
            && k.zone == (match d.zone case None => None case Some(x) => Some(if |x| <= 255 then x else x[..255]))
            && k.location == (match d.location case None => None
                              case Some(x) => Some(if |x| <= 255 then x else x[..255]))
            && k == Details(d.rssi, d.phase, d.channel, k.direction, k.zone, k.location, d.gpsLatitude, d.gpsLongitude,
                            d.gpsAltitude, d.gpsAccuracy, d.gpsTimestamp, d.readerTimestamp, d.rawPayload, d.extraData)
  {
  }

  /**
   * Which reads are accepted, exactly: those of a registered reader whose EPC is one and has at
   * most 128 digits, whose scheme the reader's filter lists if there is one, and whose numbers
   * and texts fit their columns. A read that the filter does not list is dropped; all else is refused.
   */
  lemma JudgeExactly(readers: map<int, Reader>, event: TagEvent, epc: string)
    requires ParseEpc(event.epcHex).Ok? && NormalizeEpc(event.epcHex) == Ok(epc)
    ensures event.readerId !in readers ==> Judge(readers, event).Refused?
    ensures event.readerId in readers ==>
              var schemes := readers[event.readerId].epcSchemes;
              var listed := schemes.None? || exists scheme :: Names(epc[..2], scheme) && scheme in schemes.value;
              var fits := |epc| <= 128 && FitsDetails(event.details) &&
                          (event.antenna.Some? ==> -2_147_483_648 <= event.antenna.value <= 2_147_483_647);
              && (Judge(readers, event) == Accepted(Key(event.readerId, epc, event.antenna)) <==> listed && fits)
              && (Judge(readers, event) == Filtered <==> !listed)
              && (Judge(readers, event).Refused? <==> listed && !fits)
  {
    NormalizeIsIdempotent(event.epcHex);
    if event.readerId in readers {
      FilterExactly(epc, readers[event.readerId].epcSchemes);
    }
  }

  /** An EPC that does not parse is refused, whoever sends it. */
  lemma BadEpcsAreRefused(readers: map<int, Reader>, event: TagEvent)
    requires ParseEpc(event.epcHex).Err?
    ensures Judge(readers, event) == Refused(BadEpc(ParseEpc(event.epcHex).error))
  {
  }

  // ----- rows -----

  function RowKey(row: TagRead): Key {
    Key(row.readerId, row.epcHex, row.antenna)
  }

  predicate IsRecent(row: TagRead, key: Key, cutoff: int) {
    RowKey(row) == key && row.lastSeenAt >= cutoff
  }

  /**
   * The windowed lookup: a row of the key seen at or after the cutoff, the newest of them. The
   * query leaves ties open; the model takes the oldest row, and in-order runs have no ties.
   */
  function Newest(rows: seq<TagRead>, key: Key, cutoff: int): (r: Option<nat>)
    ensures r.None? ==> forall j :: 0 <= j < |rows| ==> !IsRecent(rows[j], key, cutoff)
    ensures r.Some? ==> r.value < |rows| && IsRecent(rows[r.value], key, cutoff)
    ensures r.Some? ==> forall j :: 0 <= j < |rows| && IsRecent(rows[j], key, cutoff) ==>
                          rows[j].lastSeenAt < rows[r.value].lastSeenAt
                          || (rows[j].lastSeenAt == rows[r.value].lastSeenAt && r.value <= j)
  {
    if rows == [] then None
    else
      var r := Newest(Front(rows), key, cutoff);
      if IsRecent(Last(rows), key, cutoff) && (r.None? || rows[r.value].lastSeenAt < Last(rows).lastSeenAt)
      then Some(|rows| - 1)
      else r
  }

  function Merged(row: TagRead, a: AggregatedTagRead): TagRead {
    row.(lastSeenAt := a.lastSeenAt, seenCount := row.seenCount + 1,
         details := StoredDetails(a.event.details))
  }

  function Created(a: AggregatedTagRead, key: Key): TagRead {
    TagRead(key.readerId, a.event.readerIp, key.epcHex, 4 * |key.epcHex|, key.antenna, StoredDetails(a.event.details),
            a.lastSeenAt, a.firstSeenAt, a.lastSeenAt, a.seenCount, "valid")
  }

  function Upsert(rows: seq<TagRead>, a: AggregatedTagRead, key: Key, window: int): seq<TagRead> {
    match Newest(rows, key, a.lastSeenAt - window)
    case Some(i) => rows[i := Merged(rows[i], a)]
    case None => rows + [Created(a, key)]
  }

  /** The row that an upsert leaves behind for the read. */
  function TouchedRow(rows: seq<TagRead>, a: AggregatedTagRead, key: Key, window: int): TagRead {
    match Newest(rows, key, a.lastSeenAt - window)
    case Some(i) => Merged(rows[i], a)
    case None => Created(a, key)
  }

  function Seen(reader: Reader, at: int): Reader {
    reader.(lastSeenAt := Some(at), lastDataAt := Some(at), status := "receiving_data")
  }

  // ----- the store: tables plus the log of accepted saves -----

  /** One accepted save: under which key, seen when. */
  datatype LogEntry = LogEntry(key: Key, at: int)

  datatype Store = Store(readers: map<int, Reader>, rows: seq<TagRead>, log: seq<LogEntry>)

  function AfterSave(s: Store, a: AggregatedTagRead, window: int): Store {
    match Judge(s.readers, a.event)
    case Accepted(key) =>
      Store(s.readers[key.readerId := Seen(s.readers[key.readerId], a.lastSeenAt)],
            Upsert(s.rows, a, key, window),
            s.log + [LogEntry(key, a.lastSeenAt)])
    case _ => s
  }

  /** Saving a list of reads one after another. */
  function SaveAll(s: Store, saves: seq<AggregatedTagRead>, window: int): Store {
    if saves == [] then s else AfterSave(SaveAll(s, Front(saves), window), Last(saves), window)
  }

  lemma {:induction false} SaveAllAppend(
    s: Store, earlier: seq<AggregatedTagRead>, later: seq<AggregatedTagRead>, window: int)
    ensures SaveAll(s, earlier + later, window) == SaveAll(SaveAll(s, earlier, window), later, window)
  {
    if later == [] {
      AppendNothing(earlier);
    } else {
      FrontOfAppend(earlier, later);
      SaveAllAppend(s, earlier, Front(later), window);
    }
  }

  lemma SaveKeepsConfiguration(s: Store, a: AggregatedTagRead, window: int)
    ensures SameConfiguration(s.readers, AfterSave(s, a, window).readers)
  {
  }

  lemma ConfigurationDecidesKey(r1: map<int, Reader>, r2: map<int, Reader>, key: Key)
    requires SameConfiguration(r1, r2)
    ensures JudgeKey(r1, key) == JudgeKey(r2, key)
  {
  }

  lemma ConfigurationDecides(r1: map<int, Reader>, r2: map<int, Reader>, event: TagEvent)
    requires SameConfiguration(r1, r2)
    ensures Judge(r1, event) == Judge(r2, event)
  {
    ConfigurationDecidesKey(r1, r2, KeyOf(event));
  }

  /** The columns that tell whether a row is one of the same tag, seen within the window. */
  predicate SameTagWithin(row: TagRead, event: TagEvent, epc: string, since: int) {
    row.readerId == event.readerId && row.epcHex == epc && row.antenna == event.antenna && row.lastSeenAt >= since
  }

  /**
   * Where an accepted read goes, column by column. If some row of the same reader, EPC and antenna
   * was seen within the window, the latest such row gets the new last time, one more count and the
   * new details, and keeps everything else; if none was, a row is added with the values of the read.
   */
  lemma UpsertExactly(rows: seq<TagRead>, a: AggregatedTagRead, window: int, epc: string) returns (r: Option<nat>)
    ensures r.None? <==>
            forall i :: 0 <= i < |rows| ==> !SameTagWithin(rows[i], a.event, epc, a.lastSeenAt - window)
    ensures r.Some? ==>
              && r.value < |rows| && SameTagWithin(rows[r.value], a.event, epc, a.lastSeenAt - window)
              && (forall i :: 0 <= i < |rows| && SameTagWithin(rows[i], a.event, epc, a.lastSeenAt - window) ==>
                    rows[i].lastSeenAt <= rows[r.value].lastSeenAt)
              && var row := rows[r.value];
                 Upsert(rows, a, Key(a.event.readerId, epc, a.event.antenna), window) ==
                 rows[r.value := TagRead(row.readerId, row.readerIp, row.epcHex, row.epcBitLength, row.antenna,
                                         StoredDetails(a.event.details), row.receivedAt, row.firstSeenAt,
                                         a.lastSeenAt, row.seenCount + 1, row.parseStatus)]
    ensures r.None? ==>
              Upsert(rows, a, Key(a.event.readerId, epc, a.event.antenna), window) ==
              rows + [TagRead(a.event.readerId, a.event.readerIp, epc, 4 * |epc|, a.event.antenna,
                              StoredDetails(a.event.details), a.lastSeenAt, a.firstSeenAt, a.lastSeenAt,
                              a.seenCount, "valid")]
    ensures var key := Key(a.event.readerId, epc, a.event.antenna);
            TouchedRow(rows, a, key, window) ==
            Upsert(rows, a, key, window)[if r.Some? then r.value else |rows|]
  {
    var key := Key(a.event.readerId, epc, a.event.antenna);
    r := Newest(rows, key, a.lastSeenAt - window);
    if r.Some? {
      assert IsRecent(rows[r.value], key, a.lastSeenAt - window);
    }
  }

  /**
   * What an accepted read changes: its reader is receiving data, was last seen and last sent data
   * at the read's time, and keeps its filter; other readers are as they were; and the row.
   */
  lemma SaveExactly(s: Store, a: AggregatedTagRead, window: int, key: Key)
    requires Judge(s.readers, a.event) == Accepted(key)
    ensures var id, t := a.event.readerId, AfterSave(s, a, window);
            && id in s.readers
            && t.readers == s.readers[id := Reader(s.readers[id].epcSchemes, "receiving_data", Some(a.lastSeenAt),
                                                   Some(a.lastSeenAt))]
            && t.rows == Upsert(s.rows, a, Key(id, key.epcHex, a.event.antenna), window)
  {
  }

  class TagReadRepository {
    const window: int
    var readers: map<int, Reader>
    var rows: seq<TagRead>
    ghost var log: seq<LogEntry>

    constructor (window: int, readers: map<int, Reader>)
      ensures this.window == window && Contents() == Store(readers, [], [])
    {
      this.window := window;
      this.readers, rows, log := readers, [], [];
    }

    ghost function Contents(): Store
      reads this
    {
      Store(readers, rows, log)
    }

    /**
     * Raises for bad EPCs and unknown readers, returns None for filtered schemes, else returns
     * the row it changed or added. A call that does not accept the read changes nothing.
     */
    method Save(a: AggregatedTagRead) returns (r: Result<Option<TagRead>, SaveError>)
      modifies this
      ensures Contents() == AfterSave(old(Contents()), a, window)
      ensures r == match Judge(old(readers), a.event)
                   case Refused(e) => Err(e)
                   case Filtered => Ok(None)
                   case Accepted(key) => Ok(Some(TouchedRow(old(rows), a, key, window)))
    {
      var event := a.event;
      match ParseEpc(event.epcHex) {
        case Err(e) =>
          return Err(BadEpc(e));
        case Ok(epc) =>
          NormalizeIsIdempotent(event.epcHex);
          if event.readerId !in readers {
            return Err(UnregisteredReader(event.readerId));
          }
          var reader := readers[event.readerId];
          if !EpcSchemeIsAllowed(epc.hexValue, reader.epcSchemes) {
            return Ok(None);
          }
          var key := Key(event.readerId, epc.hexValue, event.antenna);
          if !FitsColumns(key) || !FitsDetails(event.details) {
            return Err(ColumnOverflow);
          }
          readers := readers[event.readerId := reader.(
            lastSeenAt := Some(a.lastSeenAt), lastDataAt := Some(a.lastSeenAt), status := "receiving_data")];
          var row := Record(a, key);
          return Ok(Some(row));
      }
    }

    /** The second half of `save`: merge into the newest recent row of the key, or add a row. */
    method Record(a: AggregatedTagRead, key: Key) returns (row: TagRead)
      requires key.readerId == a.event.readerId && key.antenna == a.event.antenna
      modifies this`rows, this`log
      ensures log == old(log) + [LogEntry(key, a.lastSeenAt)]
      ensures rows == Upsert(old(rows), a, key, window)
      ensures row == TouchedRow(old(rows), a, key, window)
    {
      log := log + [LogEntry(key, a.lastSeenAt)];
      var existing := Newest(rows, key, a.lastSeenAt - window);
      if existing.Some? {
        row := Refresh(rows[existing.value], a);
        rows := rows[existing.value := row];
      } else {
        row := NewRow(a, key);
        rows := rows + [row];
      }
    }

    /** The columns that a merge overwrites. */
    method Refresh(existing: TagRead, a: AggregatedTagRead) returns (row: TagRead)
      ensures row == Merged(existing, a)
    {
      row := existing.(
        lastSeenAt := a.lastSeenAt,
        seenCount := existing.seenCount + 1,
        details := StoredDetails(a.event.details));
    }

    /** The columns of a row that is added. */
    method NewRow(a: AggregatedTagRead, key: Key) returns (row: TagRead)
      requires key.readerId == a.event.readerId && key.antenna == a.event.antenna
      ensures row == Created(a, key)
    {
      var event := a.event;
      row := TagRead(
        event.readerId, event.readerIp, key.epcHex, 4 * |key.epcHex|, event.antenna, StoredDetails(event.details),
        a.lastSeenAt, a.firstSeenAt, a.lastSeenAt, a.seenCount, "valid");
    }
  }

  // ----- the rows of one key -----

  function RowsOf(rows: seq<TagRead>, key: Key): (rs: seq<TagRead>)
    ensures forall i :: 0 <= i < |rs| ==> RowKey(rs[i]) == key
  {
    if rows == [] then []
    else if RowKey(Last(rows)) == key then RowsOf(Front(rows), key) + [Last(rows)]
    else RowsOf(Front(rows), key)
  }

  lemma RowsOfAppend(rows: seq<TagRead>, row: TagRead, key: Key)
    ensures RowsOf(rows + [row], key) == if RowKey(row) == key then RowsOf(rows, key) + [row] else RowsOf(rows, key)
  {
    assert Front(rows + [row]) == rows;
  }

  lemma {:induction false} RowsOfOther(rows: seq<TagRead>, i: nat, row: TagRead, key: Key)
    requires i < |rows| && RowKey(rows[i]) != key && RowKey(row) != key
    ensures RowsOf(rows[i := row], key) == RowsOf(rows, key)
  {
    var u := rows[i := row];
    if i == |rows| - 1 {
      assert Front(u) == Front(rows);
    } else {
      RowsOfOther(Front(rows), i, row, key);
      assert Front(u) == Front(rows)[i := row];
    }
  }

  /** Ends of the rows never go back. */
  ghost predicate Ascending(rs: seq<TagRead>) {
    forall i, j :: 0 <= i < j < |rs| ==> rs[i].lastSeenAt <= rs[j].lastSeenAt
  }

  ghost predicate StrictlyAscending(rs: seq<TagRead>) {
    forall i, j :: 0 <= i < j < |rs| ==> rs[i].lastSeenAt < rs[j].lastSeenAt
  }

  /** Rows that end in order, without ties among those a lookup with this cutoff could find. */
  ghost predicate LooksUpInOrder(rs: seq<TagRead>, cutoff: int) {
    Ascending(rs) && (StrictlyAscending(rs) || rs == [] || Last(rs).lastSeenAt < cutoff)
  }

  /** No row after position `i` belongs to the key. */
  ghost predicate IsLastOf(rows: seq<TagRead>, i: nat, key: Key) {
    && i < |rows|
    && RowKey(rows[i]) == key
    && forall j :: i < j < |rows| ==> RowKey(rows[j]) != key
  }

  lemma FrontAscends(before: seq<TagRead>, row: TagRead, cutoff: int)
    requires LooksUpInOrder(before + [row], cutoff)
    ensures LooksUpInOrder(before, cutoff)
    ensures before != [] && Last(before).lastSeenAt >= cutoff ==> Last(before).lastSeenAt < row.lastSeenAt
    ensures before != [] ==> Last(before).lastSeenAt <= row.lastSeenAt
  {
    var rs := before + [row];
    assert forall i :: 0 <= i < |before| ==> rs[i] == before[i];
    if before != [] {
      assert rs[|before| - 1].lastSeenAt <= rs[|before|].lastSeenAt;
      assert StrictlyAscending(rs) ==> rs[|before| - 1].lastSeenAt < rs[|before|].lastSeenAt;
    }
  }

  lemma {:induction false} LastRowOf(rows: seq<TagRead>, i: nat, key: Key, row: TagRead)
    requires IsLastOf(rows, i, key)
    requires RowKey(row) == key
    ensures RowsOf(rows, key) != [] && Last(RowsOf(rows, key)) == rows[i]
    ensures RowsOf(rows[i := row], key) == Front(RowsOf(rows, key)) + [row]
  {
    var front, u := Front(rows), rows[i := row];
    if i == |rows| - 1 {
      assert Front(u) == front;
    } else {
      LastRowOf(front, i, key, row);
      assert Front(u) == front[i := row] && Last(u) == Last(rows);
    }
  }

  /** The step for one more row of the key. */
  lemma NewestOfNewer(front: seq<TagRead>, row: TagRead, key: Key, cutoff: int)
    requires RowKey(row) == key
    requires Newest(front, key, cutoff).Some? ==> IsLastOf(front, Newest(front, key, cutoff).value, key)
    requires Newest(front, key, cutoff).Some? ==>
               RowsOf(front, key) != [] && Last(RowsOf(front, key)).lastSeenAt < row.lastSeenAt
    ensures Newest(front + [row], key, cutoff) ==
            if row.lastSeenAt >= cutoff then Some(|front|) else Newest(front, key, cutoff)
  {
    var r := Newest(front, key, cutoff);
    assert Front(front + [row]) == front;
    if r.Some? {
      LastRowOf(front, r.value, key, front[r.value]);
    }
  }

  /**
   * When the rows of a key end in order, the lookup finds the key's last row or nothing. No two
   * rows tie, so the order in which the database breaks ties cannot matter.
   */
  lemma {:induction false} NewestIsLast(rows: seq<TagRead>, key: Key, cutoff: int)
    requires LooksUpInOrder(RowsOf(rows, key), cutoff)
    ensures var rs, r := RowsOf(rows, key), Newest(rows, key, cutoff);
            && (r.Some? <==> rs != [] && Last(rs).lastSeenAt >= cutoff)
            && (r.Some? ==> IsLastOf(rows, r.value, key))
  {
    if rows != [] {
      var front, row := Front(rows), Last(rows);
      if RowKey(row) == key {
        FrontAscends(RowsOf(front, key), row, cutoff);
        NewestIsLast(front, key, cutoff);
        NewestOfNewer(front, row, key, cutoff);
        assert rows == front + [row];
      } else {
        NewestIsLast(front, key, cutoff);
      }
    }
  }

  /** An upsert changes or adds the touched row and leaves every other row alone. */
  lemma UpsertOneRow(rows: seq<TagRead>, a: AggregatedTagRead, key: Key,
      window: int) returns (row: TagRead)
    ensures row == TouchedRow(rows, a, key, window)
    ensures RowKey(row) == key && row.lastSeenAt == a.lastSeenAt
    ensures var rows' := Upsert(rows, a, key, window);
            forall i :: 0 <= i < |rows'| ==> rows'[i] == row || (i < |rows| && rows'[i] == rows[i])
  {
    row := TouchedRow(rows, a, key, window);
  }

  // ----- what every row carries -----

  /** A row of an accepted key, with the columns that follow from its EPC, and others within their limits. */
  predicate WellMade(readers: map<int, Reader>, row: TagRead) {
    && JudgeKey(readers, RowKey(row)) == Accepted(RowKey(row))
    && Canonical(row.epcHex)
    && row.epcBitLength == 4 * |row.epcHex|
    && row.parseStatus == "valid"
    && FitsDetails(row.details) && StoredDetails(row.details) == row.details
  }

  lemma AcceptedKeyIsCanonical(readers: map<int, Reader>, key: Key)
    requires JudgeKey(readers, key).Accepted?
    ensures var k := JudgeKey(readers, key).key;
            && Canonical(k.epcHex) && k.readerId == key.readerId && k.antenna == key.antenna
            && JudgeKey(readers, k) == Accepted(k)
  {
    NormalizeIsIdempotent(key.epcHex);
  }

  lemma MergedWellMade(readers: map<int, Reader>, row: TagRead, a: AggregatedTagRead)
    requires WellMade(readers, row) && FitsDetails(a.event.details)
    ensures WellMade(readers, Merged(row, a))
  {
    assert RowKey(Merged(row, a)) == RowKey(row);
    StoredDetailsFit(a.event.details);
  }

  lemma CreatedWellMade(readers: map<int, Reader>, a: AggregatedTagRead, key: Key)
    requires JudgeKey(readers, key) == Accepted(key) && Canonical(key.epcHex) && FitsDetails(a.event.details)
    ensures WellMade(readers, Created(a, key))
  {
    assert RowKey(Created(a, key)) == key;
    StoredDetailsFit(a.event.details);
  }

  ghost predicate AllWellMade(readers: map<int, Reader>, rows: seq<TagRead>) {
    forall i :: 0 <= i < |rows| ==> WellMade(readers, rows[i])
  }

  /** A property of rows that merging keeps and a created row has holds of all rows after an upsert. */
  lemma UpsertKeeps(rows: seq<TagRead>, a: AggregatedTagRead, key: Key, window: int, good: TagRead -> bool)
    requires forall i :: 0 <= i < |rows| ==> good(rows[i])
    requires forall row :: good(row) ==> good(Merged(row, a))
    requires good(Created(a, key))
    ensures var rows' := Upsert(rows, a, key, window); forall i :: 0 <= i < |rows'| ==> good(rows'[i])
  {
  }

  lemma AcceptedKeepsWellMade(
    readers: map<int, Reader>, rows: seq<TagRead>, a: AggregatedTagRead, key: Key, window: int)
    requires AllWellMade(readers, rows) && JudgeKey(readers, key) == Accepted(key) && Canonical(key.epcHex)
    requires FitsDetails(a.event.details)
    ensures AllWellMade(readers, Upsert(rows, a, key, window))
  {
    forall row | WellMade(readers, row)
      ensures WellMade(readers, Merged(row, a))
    {
      MergedWellMade(readers, row, a);
    }
    CreatedWellMade(readers, a, key);
    UpsertKeeps(rows, a, key, window, row => WellMade(readers, row));
  }

  lemma SaveKeepsWellMade(readers: map<int, Reader>, s: Store, a: AggregatedTagRead, window: int)
    requires SameConfiguration(readers, s.readers) && AllWellMade(readers, s.rows)
    ensures AllWellMade(readers, AfterSave(s, a, window).rows)
  {
    ConfigurationDecides(readers, s.readers, a.event);
    var verdict := Judge(readers, a.event);
    if verdict.Accepted? {
      AcceptedKeyIsCanonical(readers, KeyOf(a.event));
      AcceptedKeepsWellMade(readers, s.rows, a, verdict.key, window);
    }
  }

  /** Over any saves, every row is well made: of a registered reader, an allowed scheme, and within its columns. */
  lemma {:induction false} RowsAreWellMade(readers: map<int, Reader>, saves: seq<AggregatedTagRead>, window: int)
    ensures SameConfiguration(readers, SaveAll(Store(readers, [], []), saves, window).readers)
    ensures AllWellMade(readers, SaveAll(Store(readers, [], []), saves, window).rows)
  {
    if saves != [] {
      var s, a := SaveAll(Store(readers, [], []), Front(saves), window), Last(saves);
      RowsAreWellMade(readers, Front(saves), window);
      SaveKeepsConfiguration(s, a, window);
      SaveKeepsWellMade(readers, s, a, window);
    }
  }

  /** Such a row, value by value. */
  lemma WellMadeExactly(readers: map<int, Reader>, row: TagRead)
    requires WellMade(readers, row)
    ensures row.readerId in readers
    ensures readers[row.readerId].epcSchemes.None?
            || exists scheme :: Names(row.epcHex[..2], scheme) && scheme in readers[row.readerId].epcSchemes.value
    ensures Canonical(row.epcHex) && |row.epcHex| <= 128 && row.epcBitLength == 4 * |row.epcHex|
    ensures row.details.direction.Some? ==> |row.details.direction.value| <= 64
    ensures row.details.zone.Some? ==> |row.details.zone.value| <= 255
    ensures row.details.location.Some? ==> |row.details.location.value| <= 255
  {
    NormalizeIsIdempotent(row.epcHex);
    FilterExactly(row.epcHex, readers[row.readerId].epcSchemes);
  }

  // ----- reader status -----

  /** The time of the last accepted save of a reader. */
  function LastTime(log: seq<LogEntry>, readerId: int): Option<int> {
    if log == [] then None
    else if Last(log).key.readerId == readerId then Some(Last(log).at)
    else LastTime(Front(log), readerId)
  }

  /**
   * Over any saves, a reader shows the time of its own last accepted save and that it is
   * receiving, or is as it was before; refused and filtered reads leave no trace.
   */
  lemma {:induction false} ReadersShowLastSave(readers: map<int, Reader>, saves: seq<AggregatedTagRead>,
      window: int, id: int)
    requires id in readers
    ensures var s := SaveAll(Store(readers, [], []), saves, window);
            && id in s.readers
            && s.readers[id] == match LastTime(s.log, id)
                                case None => readers[id]
                                case Some(at) => Seen(readers[id], at)
  {
    if saves != [] {
      var s, a := SaveAll(Store(readers, [], []), Front(saves), window), Last(saves);
      ReadersShowLastSave(readers, Front(saves), window, id);
      match Judge(s.readers, a.event)
      case Accepted(key) => FrontOfSnoc(s.log, LogEntry(key, a.lastSeenAt));
      case _ =>
    }
  }

  // ----- counting -----

  function TotalCount(rows: seq<TagRead>): nat {
    if rows == [] then 0 else TotalCount(Front(rows)) + Last(rows).seenCount
  }

  lemma {:induction false} TotalCountUpdate(rows: seq<TagRead>, i: nat, row: TagRead)
    requires i < |rows|
    ensures TotalCount(rows[i := row]) == TotalCount(rows) - rows[i].seenCount + row.seenCount
  {
    var u := rows[i := row];
    if i == |rows| - 1 {
      assert Front(u) == Front(rows);
    } else {
      assert Front(u) == Front(rows)[i := row];
      TotalCountUpdate(Front(rows), i, row);
    }
  }

  lemma UpsertCount(rows: seq<TagRead>, a: AggregatedTagRead, key: Key, window: int)
    ensures TotalCount(Upsert(rows, a, key, window)) == TotalCount(rows)
              + if Newest(rows, key, a.lastSeenAt - window).Some? then 1 else a.seenCount
  {
    match Newest(rows, key, a.lastSeenAt - window)
    case Some(i) => TotalCountUpdate(rows, i, Merged(rows[i], a));
    case None => assert Front(rows + [Created(a, key)]) == rows;
  }

  /** The read would add a row although it already stands for several events. */
  predicate CountsTwice(s: Store, a: AggregatedTagRead, window: int) {
    match Judge(s.readers, a.event)
    case Accepted(key) => Newest(s.rows, key, a.lastSeenAt - window).None? && a.seenCount != 1
    case _ => false
  }

  /** No save of the list counts events twice, at the moment it is made. */
  ghost predicate NeverCountsTwice(s: Store, saves: seq<AggregatedTagRead>, window: int) {
    saves == [] ||
    (NeverCountsTwice(s, Front(saves), window) && !CountsTwice(SaveAll(s, Front(saves), window), Last(saves), window))
  }

  /** One save keeps the surplus of counts over accepted saves, unless it counts events twice. */
  lemma SaveCount(s: Store, a: AggregatedTagRead, window: int)
    requires a.seenCount >= 1
    ensures var t := AfterSave(s, a, window);
            && TotalCount(t.rows) - |t.log| >= TotalCount(s.rows) - |s.log|
            && (TotalCount(t.rows) - |t.log| == TotalCount(s.rows) - |s.log| <==> !CountsTwice(s, a, window))
  {
    match Judge(s.readers, a.event)
    case Accepted(key) => UpsertCount(s.rows, a, key, window);
    case _ =>
  }

  /**
   * Conservation, exactly: over any saves of non-empty reads, in any time order, the counts in the
   * table grow by one per accepted save if and only if no save adds a row for a read that already
   * stands for several events. Otherwise they grow by more.
   */
  lemma {:induction false} ConservationExactly(s: Store, saves: seq<AggregatedTagRead>, window: int)
    requires forall i :: 0 <= i < |saves| ==> saves[i].seenCount >= 1
    ensures var t := SaveAll(s, saves, window);
            && TotalCount(t.rows) - TotalCount(s.rows) >= |t.log| - |s.log|
            && (TotalCount(t.rows) - TotalCount(s.rows) == |t.log| - |s.log| <==> NeverCountsTwice(s, saves, window))
  {
    if saves != [] {
      var front, a := Front(saves), Last(saves);
      ConservationExactly(s, front, window);
      SaveCount(SaveAll(s, front, window), a, window);
    }
  }
}
