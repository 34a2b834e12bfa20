/** The store-and-forward file of app/buffer.py, one record per line. */
module Buffer {
  import opened Wrappers
  import opened Sequences
  import opened Rfid
  import opened Repository

  // ----- lines -----

  /** A member of a dictionary: null, ISO text, or a datetime object, which JSON cannot hold. */
  datatype TimeField = Null | Iso(time: int) | DateTime(time: int)

  /** A read as a dictionary: the time members, and the members that are JSON values as they are. */
  datatype Dict = Dict(
    readerId: int, epcHex: string, antenna: Option<int>, readerIp: Address, details: Details,
    gpsTimestamp: TimeField, readerTimestamp: TimeField, firstSeenAt: TimeField, lastSeenAt: TimeField,
    seenCount: nat, isDuplicate: bool)

  function DateField(t: Option<int>): TimeField {
    match t
    case None => Null
    case Some(time) => DateTime(time)
  }

  function IsoFormat(f: TimeField): TimeField {
    match f
    case DateTime(time) => Iso(time)
    case _ => f
  }

  function FromIso(f: TimeField): Option<int> {
    match f
    case Iso(time) => Some(time)
    case _ => None
  }

  function AsDict(a: AggregatedTagRead): Dict {
    var e := a.event;
    Dict(e.readerId, e.epcHex, e.antenna, e.readerIp, e.details.(gpsTimestamp := None, readerTimestamp := None),
         DateField(e.details.gpsTimestamp), DateField(e.details.readerTimestamp),
         DateTime(a.firstSeenAt), DateTime(a.lastSeenAt), a.seenCount, a.isDuplicate)
  }

  /** `_serialize`: every time member but `gps_timestamp` becomes ISO text. */
  function Serialize(a: AggregatedTagRead): Dict {
    var data := AsDict(a);
    data.(readerTimestamp := IsoFormat(data.readerTimestamp),
          firstSeenAt := IsoFormat(data.firstSeenAt),
          lastSeenAt := IsoFormat(data.lastSeenAt))
  }

  /** `json.dumps` raises on a datetime object. */
  predicate IsJson(data: Dict) {
    && !data.gpsTimestamp.DateTime? && !data.readerTimestamp.DateTime?
    && !data.firstSeenAt.DateTime? && !data.lastSeenAt.DateTime?
  }

  /** `_deserialize`; None where a member has the wrong form. */
  function Deserialize(data: Dict): Option<AggregatedTagRead> {
    if !data.gpsTimestamp.Null? || data.readerTimestamp.DateTime? then None
    else if !data.firstSeenAt.Iso? || !data.lastSeenAt.Iso? then None
    else
      var details := data.details.(gpsTimestamp := None, readerTimestamp := FromIso(data.readerTimestamp));
      Some(AggregatedTagRead(
        TagEvent(data.readerId, data.epcHex, data.antenna, data.readerIp, details),
        data.firstSeenAt.time, data.lastSeenAt.time, data.seenCount, data.isDuplicate))
  }

  /** Reads the file can hold: those without a GPS time. */
  predicate Storable(a: AggregatedTagRead) {
    a.event.details.gpsTimestamp.None?
  }

  /** A read can be written to a line exactly when it has no GPS time, and then it is read back. */
  lemma LineRoundTrip(a: AggregatedTagRead)
    ensures IsJson(Serialize(a)) <==> Storable(a)
    ensures Deserialize(Serialize(a)) == Some(a) <==> Storable(a)
  {
    var d := a.event.details;
    if Storable(a) {
      var json := d.(gpsTimestamp := None, readerTimestamp := None);
      assert json.(gpsTimestamp := None, readerTimestamp := d.readerTimestamp) == d;
    }
  }

  // ----- saves that may fail -----

  /** Where a save meets an outage: nowhere, before its commit, or when refreshing after it. */
  datatype Fault = Healthy | BeforeCommit | AfterCommit

  /** What a save leaves in the database, whether it raises, and whether the read was stored or dropped. */
  datatype Tried = Tried(store: Store, raised: bool, stored: bool, dropped: bool)

  /** A save under a fault. */
  function Try(store: Store, a: AggregatedTagRead, window: int, fault: Fault): Tried {
    match Judge(store.readers, a.event)
    case Refused(_) => Tried(store, true, false, false)
    case Filtered => Tried(store, fault == BeforeCommit, false, fault != BeforeCommit)
    case Accepted(_) =>
      if fault == BeforeCommit then Tried(store, true, false, false)
      else Tried(AfterSave(store, a, window), fault == AfterCommit, true, false)
  }

  /** A save under a fault, verdict by verdict. */
  lemma TryExactly(store: Store, a: AggregatedTagRead, window: int, fault: Fault)
    ensures var verdict, t := Judge(store.readers, a.event), Try(store, a, window, fault);
            && (t.raised <==>
                  verdict.Refused? || fault == BeforeCommit || (verdict.Accepted? && fault == AfterCommit))
            && (t.stored <==> verdict.Accepted? && fault != BeforeCommit)
            && (t.dropped <==> verdict.Filtered? && fault != BeforeCommit)
            && t.store == if t.stored then AfterSave(store, a, window) else store
  {
  }

  method TrySave(repository: TagReadRepository, a: AggregatedTagRead, fault: Fault) returns (raised: bool)
    modifies repository
    ensures var t := Try(old(repository.Contents()), a, repository.window, fault);
            repository.Contents() == t.store && raised == t.raised
  {
    if fault == BeforeCommit {
      return true;
    }
    var r := repository.Save(a);
    match r
    case Err(_) => return true;
    case Ok(row) => return row.Some? && fault == AfterCommit;
  }

  function FaultAt(faults: seq<Fault>, i: int): Fault {
    if 0 <= i < |faults| then faults[i] else Healthy
  }

  /** What a replay is given to save with: the database, the read and the number of its line. */
  type SaveCall = (Store, AggregatedTagRead, nat) -> Tried

  /** The repository's `save`, with the outage that each line meets. */
  function Saving(window: int, faults: seq<Fault>): SaveCall {
    (store, a, i) => Try(store, a, window, FaultAt(faults, i))
  }

  function One(a: AggregatedTagRead, condition: bool): seq<AggregatedTagRead> {
    if condition then [a] else []
  }

  /**
   * Saving reads in order up to the first that raises: the database left, how many went well,
   * which reads were stored, which dropped by the filter, and which stored although the call raised.
   */
  datatype Drained = Drained(
    store: Store, count: nat,
    stored: seq<AggregatedTagRead>, dropped: seq<AggregatedTagRead>, again: seq<AggregatedTagRead>)

  function Drain(store: Store, pending: seq<AggregatedTagRead>, save: SaveCall, i: nat): (d: Drained)
    requires i <= |pending|
    ensures i <= d.count <= |pending|
    decreases |pending| - i
  {
    if i == |pending| then Drained(store, i, [], [], [])
    else
      var a := pending[i];
      var t := save(store, a, i);
      var d := if t.raised then Drained(t.store, i, [], [], []) else Drain(t.store, pending, save, i + 1);
      Drained(d.store, d.count,
              One(a, t.stored) + d.stored, One(a, t.dropped) + d.dropped, One(a, t.stored && t.raised) + d.again)
  }

  /** From line `i` on the loop leaves the database and returns the count of `d`. */
  ghost predicate EndsAs(store: Store, pending: seq<AggregatedTagRead>, save: SaveCall, i: nat, d: Drained)
    requires i <= |pending|
  {
    var e := Drain(store, pending, save, i);
    e.store == d.store && e.count == d.count
  }

  /** The database before line `j` of a replay, when none of the lines before it raised. */
  function StoreBefore(store: Store, pending: seq<AggregatedTagRead>, save: SaveCall, i: nat, j: nat): Store
    requires i <= j <= |pending|
    decreases j - i
  {
    if i == j then store
    else
      var before := StoreBefore(store, pending, save, i, j - 1);
      save(before, pending[j - 1], j - 1).store
  }

  lemma {:induction false} StoreBeforeStep(
    store: Store, pending: seq<AggregatedTagRead>, save: SaveCall, i: nat, j: nat)
    requires i < j <= |pending|
    ensures StoreBefore(store, pending, save, i, j) ==
            StoreBefore(save(store, pending[i], i).store, pending, save, i + 1, j)
    decreases j - i
  {
    if i + 1 < j {
      StoreBeforeStep(store, pending, save, i, j - 1);
    }
  }

  /**
   * A replay, exactly: every line before the count is saved without raising, each against the
   * database that the lines before it left; the line at the count, if there is one, raises.
   */
  lemma {:induction false} DrainExactly(
    store: Store, pending: seq<AggregatedTagRead>, save: SaveCall, i: nat, j: nat)
    requires i <= |pending| && i <= j <= Drain(store, pending, save, i).count
    ensures var n := Drain(store, pending, save, i).count;
            && (j < n ==> !save(StoreBefore(store, pending, save, i, j), pending[j], j).raised)
            && (j == n < |pending| ==> save(StoreBefore(store, pending, save, i, j), pending[j], j).raised)
            && (j == n ==> Drain(store, pending, save, i).store ==
                           if n < |pending| then save(StoreBefore(store, pending, save, i, j), pending[j], j).store
                           else StoreBefore(store, pending, save, i, j))
    decreases |pending| - i
  {
    if i < |pending| && !save(store, pending[i], i).raised && i < j {
      DrainExactly(save(store, pending[i], i).store, pending, save, i + 1, j);
      StoreBeforeStep(store, pending, save, i, j);
    }
  }

  lemma DrainStep(
    store: Store, pending: seq<AggregatedTagRead>, save: SaveCall, i: nat, d: Drained, after: Store, raised: bool)
    requires i < |pending| && EndsAs(store, pending, save, i, d)
    requires after == save(store, pending[i], i).store && raised == save(store, pending[i], i).raised
    ensures if raised then after == d.store && i == d.count else EndsAs(after, pending, save, i + 1, d)
  {
  }

  // ----- the file -----

  function Written(pending: seq<AggregatedTagRead>): (lines: seq<Dict>)
    ensures |lines| == |pending|
  {
    seq(|pending|, i requires 0 <= i < |pending| => Serialize(pending[i]))
  }

  lemma TakeOut(replayed: seq<AggregatedTagRead>, pending: seq<AggregatedTagRead>,
      lines: seq<Dict>, count: nat)
    requires lines == Written(pending) && count <= |pending|
    ensures replayed + pending == (replayed + pending[..count]) + pending[count..]
    ensures Written(pending[count..]) == lines[count..]
    ensures count == |lines| ==> pending[count..] == []
  {
    Split(pending, count);
    Associate(replayed, pending[..count], pending[count..]);
  }

  class EventBuffer {
    /** The lines of the file; None when there is no file. */
    var file: Option<seq<Dict>>
    ghost var pending: seq<AggregatedTagRead>
    ghost var appended: seq<AggregatedTagRead>
    ghost var replayed: seq<AggregatedTagRead>

    /** A FIFO: what was replayed, then what the file holds, is all that was appended, in order. */
    ghost predicate Valid()
      reads this
    {
      && (forall i :: 0 <= i < |pending| ==> Storable(pending[i]))
      && (if file.Some? then file.value == Written(pending) else pending == [])
      && appended == replayed + pending
    }

    constructor ()
      ensures Valid() && appended == [] && replayed == [] && pending == []
    {
      file, pending, appended, replayed := None, [], [], [];
    }

    /** Raises, leaving the lines as they were, exactly when the read has a GPS time. */
    method Append(a: AggregatedTagRead) returns (raised: bool)
      requires Valid()
      modifies this
      ensures Valid()
      ensures raised <==> !Storable(a)
      ensures pending == (if raised then old(pending) else old(pending) + [a])
      ensures appended == (if raised then old(appended) else old(appended) + [a]) && replayed == old(replayed)
    {
      LineRoundTrip(a);
      var lines := if file.Some? then file.value else [];
      file := Some(lines);
      var line := Serialize(a);
      if !IsJson(line) {
        return true;
      }
      assert Written(pending + [a]) == Written(pending) + [line];
      Associate(replayed, pending, [a]);
      file := Some(lines + [line]);
      pending := pending + [a];
      appended := appended + [a];
      return false;
    }

    /** Saves the lines in order up to the first failure and keeps the rest. */
    method Replay(repository: TagReadRepository, faults: seq<Fault>) returns (count: nat)
      requires Valid()
      modifies this, repository
      ensures Valid() && appended == old(appended)
      ensures var d := Drain(old(repository.Contents()), old(pending), Saving(repository.window, faults), 0);
              repository.Contents() == d.store && count == d.count
      ensures replayed == old(replayed) + old(pending)[..count]
      ensures pending == old(pending)[count..]
    {
      if file.None? {
        return 0;
      }
      var lines := file.value;
      count := SaveLines(repository, lines, faults);
      TakeOut(replayed, pending, lines, count);
      if count < |lines| {
        file := Some(lines[count..]);
      } else {
        file := None;
      }
      replayed := replayed + pending[..count];
      pending := pending[count..];
    }

    /** The loop of `replay`; a crash after it and before the rewrite leaves exactly this state. */
    method SaveLines(repository: TagReadRepository, lines: seq<Dict>, faults: seq<Fault>) returns (count: nat)
      requires Valid() && lines == Written(pending)
      modifies repository
      ensures var d := Drain(old(repository.Contents()), pending, Saving(repository.window, faults), 0);
              repository.Contents() == d.store && count == d.count
    {
      count := 0;
      ghost var save := Saving(repository.window, faults);
      ghost var d := Drain(repository.Contents(), pending, save, 0);
      while count < |lines|
        invariant count <= |lines|
        invariant EndsAs(repository.Contents(), pending, save, count, d)
      {
        ghost var before := repository.Contents();
        var raised := SaveLine(repository, lines, count, faults);
        DrainStep(before, pending, save, count, d, repository.Contents(), raised);
        if raised {
          return count;
        }
        count := count + 1;
      }
    }

    /** One line of the loop: parse it and save it. */
    method SaveLine(repository: TagReadRepository, lines: seq<Dict>, i: nat, faults: seq<Fault>)
      returns (raised: bool)
      requires Valid() && lines == Written(pending) && i < |lines|
      modifies repository
      ensures var t := Saving(repository.window, faults)(old(repository.Contents()), pending[i], i);
              repository.Contents() == t.store && raised == t.raised
    {
      LineRoundTrip(pending[i]);
      raised := TrySave(repository, Deserialize(lines[i]).value, FaultAt(faults, i));
    }
  }
}
