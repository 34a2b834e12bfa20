/**
 * Persistence with faults, as app/main.py wires it: a read that cannot be saved is buffered, and
 * the buffer is replayed when the service starts.
 */
module Server {
  import opened Sequences
  import opened Sessions
  import opened Rfid
  import opened Repository
  import opened Table
  import opened Buffer

  /** A read handed to `log_tag_read`, or a start of the service, which may crash before the rewrite. */
  datatype Event = Receive(read: AggregatedTagRead, fault: Fault) | Startup(faults: seq<Fault>, crashed: bool)

  /**
   * What became of the reads. `received`: handed to `log_tag_read`; `stored`: saved, in order;
   * `dropped`: refused by the scheme filter; `lost`: neither saved nor written to the file;
   * `again`: saved or dropped and still in the file afterwards, to be tried once more.
   */
  datatype Ledger = Ledger(
    received: multiset<AggregatedTagRead>, stored: seq<AggregatedTagRead>, dropped: multiset<AggregatedTagRead>,
    lost: multiset<AggregatedTagRead>, again: multiset<AggregatedTagRead>)

  datatype State = State(store: Store, file: seq<AggregatedTagRead>, ledger: Ledger)

  function Initial(readers: map<int, Reader>): State {
    State(Store(readers, [], []), [], Ledger(multiset{}, [], multiset{}, multiset{}, multiset{}))
  }

  function Logged(s: State, a: AggregatedTagRead, t: Tried): State {
    var l, buffered := s.ledger, t.raised && Storable(a);
    State(t.store, s.file + One(a, buffered),
          Ledger(l.received + multiset{a},
                 l.stored + One(a, t.stored),
                 l.dropped + multiset(One(a, t.dropped)),
                 l.lost + multiset(One(a, t.raised && !t.stored && !buffered)),
                 l.again + multiset(One(a, t.stored && buffered))))
  }

  /** `log_tag_read`: save, and on any exception append to the buffer. */
  function Log(s: State, a: AggregatedTagRead, window: int, fault: Fault): State {
    Logged(s, a, Try(s.store, a, window, fault))
  }

  /** What the replay of a start makes of the database and the file. */
  function Replay(s: State, window: int, faults: seq<Fault>): (d: Drained)
    ensures d.count <= |s.file|
  {
    Drain(s.store, s.file, Saving(window, faults), 0)
  }

  /** The rewrite keeps the lines from the first failure on; a crash before it keeps them all. */
  function Rewritten(s: State, d: Drained, crashed: bool): State
    requires d.count <= |s.file|
  {
    var l := s.ledger;
    State(d.store, if crashed then s.file else s.file[d.count..],
          l.(stored := l.stored + d.stored,
             dropped := l.dropped + multiset(d.dropped),
             again := l.again + multiset(d.again) + multiset(if crashed then s.file[..d.count] else [])))
  }

  function Step(s: State, e: Event, window: int): State {
    match e
    case Receive(a, fault) => Log(s, a, window, fault)
    case Startup(faults, crashed) => Rewritten(s, Replay(s, window, faults), crashed)
  }

  function Run(s: State, events: seq<Event>, window: int): State {
    if events == [] then s else Step(Run(s, Front(events), window), Last(events), window)
  }

  // ----- the balance -----

  /** Every received read, and every read tried again, is in exactly one place. */
  ghost predicate Balanced(s: State) {
    var l := s.ledger;
    l.received + l.again == multiset(l.stored) + l.dropped + l.lost + multiset(s.file)
  }

  /** The database is what saving the stored reads, in their order, makes of an empty one. */
  ghost predicate StoreIsSaved(s: State, readers: map<int, Reader>, window: int) {
    s.store == SaveAll(Store(readers, [], []), s.ledger.stored, window)
  }

  ghost predicate OnlyGpsIsLost(s: State) {
    && (forall a :: a in s.ledger.lost ==> !Storable(a))
    && (forall i :: 0 <= i < |s.file| ==> Storable(s.file[i]))
  }

  /** Adding the same things on both sides keeps a balance. */
  lemma AddBoth<T>(
    l1: multiset<T>, l2: multiset<T>, r1: multiset<T>, r2: multiset<T>, r3: multiset<T>, r4: multiset<T>,
    x1: multiset<T>, x2: multiset<T>, y1: multiset<T>, y2: multiset<T>, y3: multiset<T>, y4: multiset<T>)
    requires l1 + l2 == r1 + r2 + r3 + r4
    requires x1 + x2 == y1 + y2 + y3 + y4
    ensures (l1 + x1) + (l2 + x2) == (r1 + y1) + (r2 + y2) + (r3 + y3) + (r4 + y4)
  {
    forall e: T
      ensures ((l1 + x1) + (l2 + x2))[e] == ((r1 + y1) + (r2 + y2) + (r3 + y3) + (r4 + y4))[e]
    {
      assert (l1 + l2)[e] == (r1 + r2 + r3 + r4)[e];
      assert (x1 + x2)[e] == (y1 + y2 + y3 + y4)[e];
    }
  }

  /** Moving what a replay took out of the file over to what it stored and dropped. */
  lemma MoveOver<T>(
    left: multiset<T>, r1: multiset<T>, r2: multiset<T>, r3: multiset<T>, done: multiset<T>, kept: multiset<T>,
    more: multiset<T>, y1: multiset<T>, y2: multiset<T>)
    requires left == r1 + r2 + r3 + (done + kept)
    requires done + more == y1 + y2
    ensures left + more == (r1 + y1) + (r2 + y2) + r3 + kept
    ensures left + more + done == (r1 + y1) + (r2 + y2) + r3 + (done + kept)
  {
    forall e: T
      ensures (left + more)[e] == ((r1 + y1) + (r2 + y2) + r3 + kept)[e]
    {
      assert left[e] == (r1 + r2 + r3 + (done + kept))[e];
      assert (done + more)[e] == (y1 + y2)[e];
    }
    assert (r1 + y1) + (r2 + y2) + r3 + kept + done == (r1 + y1) + (r2 + y2) + r3 + (done + kept);
  }

  /** An attempt ends in one way: stored, dropped, or raised with nothing done; or stored and raised. */
  predicate Tallies(t: Tried) {
    (t.stored || t.dropped || t.raised) && !(t.stored && t.dropped) && !(t.dropped && t.raised)
  }

  lemma LogTally(a: AggregatedTagRead, t: Tried, keep: bool)
    requires Tallies(t)
    ensures multiset{a} + multiset(One(a, t.stored && t.raised && keep)) ==
            multiset(One(a, t.stored)) + multiset(One(a, t.dropped))
            + multiset(One(a, t.raised && !t.stored && !(t.raised && keep))) + multiset(One(a, t.raised && keep))
    ensures multiset(One(a, !t.raised)) + multiset(One(a, t.stored && t.raised)) ==
            multiset(One(a, t.stored)) + multiset(One(a, t.dropped))
  {
  }

  lemma LoggedBalances(s: State, a: AggregatedTagRead, t: Tried)
    requires Balanced(s) && OnlyGpsIsLost(s) && Tallies(t)
    ensures Balanced(Logged(s, a, t)) && OnlyGpsIsLost(Logged(s, a, t))
  {
    var l, keep := s.ledger, Storable(a);
    LogTally(a, t, keep);
    AddBoth(l.received, l.again, multiset(l.stored), l.dropped, l.lost, multiset(s.file),
            multiset{a}, multiset(One(a, t.stored && t.raised && keep)), multiset(One(a, t.stored)),
            multiset(One(a, t.dropped)), multiset(One(a, t.raised && !t.stored && !(t.raised && keep))),
            multiset(One(a, t.raised && keep)));
  }

  /** A save ends in one way, and leaves in the database what it says it stored. */
  ghost predicate OneEnding(save: SaveCall) {
    forall store: Store, a: AggregatedTagRead, i: nat :: Tallies(save(store, a, i))
  }

  ghost predicate Stores(save: SaveCall, window: int) {
    forall store: Store, a: AggregatedTagRead, i: nat ::
      save(store, a, i).store == SaveAll(store, One(a, save(store, a, i).stored), window)
  }

  lemma TryIsSound(store: Store, a: AggregatedTagRead, window: int, fault: Fault)
    ensures var t := Try(store, a, window, fault); Tallies(t) && t.store == SaveAll(store, One(a, t.stored), window)
  {
    FrontOfSnoc([], a);
    AppendNothing([a]);
  }

  lemma SavingIsSound(window: int, faults: seq<Fault>)
    ensures OneEnding(Saving(window, faults)) && Stores(Saving(window, faults), window)
  {
    forall store: Store, a: AggregatedTagRead, i: nat
      ensures var t := Saving(window, faults)(store, a, i);
              Tallies(t) && t.store == SaveAll(store, One(a, t.stored), window)
    {
      TryIsSound(store, a, window, FaultAt(faults, i));
    }
  }

  lemma TallyMore<T>(
    x: seq<T>, xs: seq<T>, e: seq<T>, es: seq<T>, y: seq<T>, ys: seq<T>, z: seq<T>, zs: seq<T>)
    requires multiset(x) + multiset(e) == multiset(y) + multiset(z)
    requires multiset(xs) + multiset(es) == multiset(ys) + multiset(zs)
    ensures multiset(x + xs) + multiset(e + es) == multiset(y + ys) + multiset(z + zs)
  {
    assert multiset(x + xs) + multiset(e + es) == (multiset(x) + multiset(e)) + (multiset(xs) + multiset(es));
    assert multiset(y + ys) + multiset(z + zs) == (multiset(y) + multiset(z)) + (multiset(ys) + multiset(zs));
  }

  /** Every line a replay gets past was stored or dropped; one stored without getting past is tried again. */
  lemma {:induction false} DrainTally(
    store: Store, file: seq<AggregatedTagRead>, save: SaveCall, i: nat)
    requires i <= |file| && OneEnding(save)
    ensures var d := Drain(store, file, save, i);
            multiset(file[i..d.count]) + multiset(d.again) == multiset(d.stored) + multiset(d.dropped)
    decreases |file| - i
  {
    if i < |file| {
      var a, t := file[i], save(store, file[i], i);
      LogTally(a, t, true);
      if t.raised {
        TallyMore(One(a, false), [], One(a, t.stored), [], One(a, t.stored), [], One(a, t.dropped), []);
      } else {
        DrainTally(t.store, file, save, i + 1);
        var d := Drain(t.store, file, save, i + 1);
        PeelSlice(file, i, d.count);
        TallyMore(One(a, true), file[i + 1..d.count], One(a, false), d.again,
                  One(a, t.stored), d.stored, One(a, t.dropped), d.dropped);
      }
    }
  }

  /** A replay leaves the database that saving its stored reads gives. */
  lemma {:induction false} DrainSaves(
    store: Store, file: seq<AggregatedTagRead>, save: SaveCall, i: nat, window: int)
    requires i <= |file| && Stores(save, window)
    ensures var d := Drain(store, file, save, i); d.store == SaveAll(store, d.stored, window)
    decreases |file| - i
  {
    if i < |file| {
      var a, t := file[i], save(store, file[i], i);
      if t.raised {
        AppendNothing(One(a, t.stored));
      } else {
        DrainSaves(t.store, file, save, i + 1, window);
        SaveAllAppend(store, One(a, t.stored), Drain(t.store, file, save, i + 1).stored, window);
      }
    }
  }

  lemma LoggedSaves(s: State, readers: map<int, Reader>, window: int, a: AggregatedTagRead, t: Tried)
    requires StoreIsSaved(s, readers, window)
    requires t.store == SaveAll(s.store, One(a, t.stored), window)
    ensures StoreIsSaved(Logged(s, a, t), readers, window)
  {
    SaveAllAppend(Store(readers, [], []), s.ledger.stored, One(a, t.stored), window);
  }

  lemma RewrittenSaves(s: State, readers: map<int, Reader>, window: int, d: Drained, crashed: bool)
    requires StoreIsSaved(s, readers, window)
    requires d.count <= |s.file| && d.store == SaveAll(s.store, d.stored, window)
    ensures StoreIsSaved(Rewritten(s, d, crashed), readers, window)
  {
    SaveAllAppend(Store(readers, [], []), s.ledger.stored, d.stored, window);
  }

  lemma RewrittenBalances(s: State, d: Drained, crashed: bool)
    requires Balanced(s) && OnlyGpsIsLost(s) && d.count <= |s.file|
    requires multiset(s.file[..d.count]) + multiset(d.again) == multiset(d.stored) + multiset(d.dropped)
    ensures Balanced(Rewritten(s, d, crashed)) && OnlyGpsIsLost(Rewritten(s, d, crashed))
  {
    var l, done, left := s.ledger, multiset(s.file[..d.count]), multiset(s.file[d.count..]);
    Split(s.file, d.count);
    assert multiset(s.file) == done + left;
    MoveOver(l.received + l.again, multiset(l.stored), l.dropped, l.lost, done, left,
             multiset(d.again), multiset(d.stored), multiset(d.dropped));
  }

  lemma LogKeeps(s: State, readers: map<int, Reader>, window: int, a: AggregatedTagRead, fault: Fault)
    returns (after: State)
    requires Balanced(s) && StoreIsSaved(s, readers, window) && OnlyGpsIsLost(s)
    ensures after == Log(s, a, window, fault)
    ensures Balanced(after) && StoreIsSaved(after, readers, window) && OnlyGpsIsLost(after)
  {
    var t := Try(s.store, a, window, fault);
    TryIsSound(s.store, a, window, fault);
    LoggedBalances(s, a, t);
    LoggedSaves(s, readers, window, a, t);
    after := Logged(s, a, t);
  }

  lemma StartKeeps(s: State, readers: map<int, Reader>, window: int, faults: seq<Fault>, crashed: bool)
    requires Balanced(s) && StoreIsSaved(s, readers, window) && OnlyGpsIsLost(s)
    ensures var t := Rewritten(s, Replay(s, window, faults), crashed);
            Balanced(t) && StoreIsSaved(t, readers, window) && OnlyGpsIsLost(t)
  {
    var save := Saving(window, faults);
    SavingIsSound(window, faults);
    DrainTally(s.store, s.file, save, 0);
    DrainSaves(s.store, s.file, save, 0, window);
    RewrittenBalances(s, Drain(s.store, s.file, save, 0), crashed);
    RewrittenSaves(s, readers, window, Drain(s.store, s.file, save, 0), crashed);
  }

  /**
   * No read is lost: over any run of received reads, save failures, restarts, replays and crashes,
   * every received read is stored, dropped by the scheme filter or still in the file, and only a
   * read with a GPS time can be lost. A read can be in two places only if it is counted in `again`.
   */
  lemma {:induction false} NoReadIsLost(readers: map<int, Reader>, events: seq<Event>, window: int)
    ensures var s := Run(Initial(readers), events, window);
            Balanced(s) && StoreIsSaved(s, readers, window) && OnlyGpsIsLost(s)
  {
    if events != [] {
      var s := Run(Initial(readers), Front(events), window);
      NoReadIsLost(readers, Front(events), window);
      match Last(events)
      case Receive(a, fault) =>
        var _ := LogKeeps(s, readers, window, a, fault);
      case Startup(faults, crashed) =>
        StartKeeps(s, readers, window, faults, crashed);
    }
  }

  // ----- reads without a GPS time -----

  /** The reads handed to `log_tag_read`, in order. */
  function ReceivedReads(events: seq<Event>): seq<AggregatedTagRead> {
    if events == [] then []
    else ReceivedReads(Front(events)) + if Last(events).Receive? then [Last(events).read] else []
  }

  ghost predicate AllStorable(handed: seq<AggregatedTagRead>) {
    forall i :: 0 <= i < |handed| ==> Storable(handed[i])
  }

  lemma StorableStep(s: State, e: Event, window: int)
    requires e.Receive? ==> Storable(e.read)
    ensures Step(s, e, window).ledger.lost == s.ledger.lost
    ensures Step(s, e, window).ledger.received ==
            s.ledger.received + multiset(if e.Receive? then [e.read] else [])
  {
  }

  lemma {:induction false} NothingLost(readers: map<int, Reader>, events: seq<Event>, window: int)
    requires AllStorable(ReceivedReads(events))
    ensures var l := Run(Initial(readers), events, window).ledger;
            l.lost == multiset{} && l.received == multiset(ReceivedReads(events))
  {
    if events != [] {
      var e, earlier := Last(events), ReceivedReads(Front(events));
      assert forall i :: 0 <= i < |earlier| ==> ReceivedReads(events)[i] == earlier[i];
      assert e.Receive? ==> ReceivedReads(events)[|earlier|] == e.read;
      NothingLost(readers, Front(events), window);
      StorableStep(Run(Initial(readers), Front(events), window), e, window);
    }
  }

  /** Every received read, and every read tried again, is stored, dropped or still in the file. */
  ghost predicate NoneMissing(s: State, handed: seq<AggregatedTagRead>) {
    multiset(handed) + s.ledger.again == multiset(s.ledger.stored) + s.ledger.dropped + multiset(s.file)
  }

  /** Without GPS times no read is lost, whatever the faults, starts and crashes. */
  lemma StorableAreKept(readers: map<int, Reader>, events: seq<Event>, window: int)
    requires AllStorable(ReceivedReads(events))
    ensures NoneMissing(Run(Initial(readers), events, window), ReceivedReads(events))
  {
    NoReadIsLost(readers, events, window);
    NothingLost(readers, events, window);
    var l := Run(Initial(readers), events, window).ledger;
    assert multiset(l.stored) + l.dropped + multiset{} == multiset(l.stored) + l.dropped;
  }

  /** No outage strikes between a commit and the end of its call, and no start crashes. */
  predicate CleanFaults(events: seq<Event>) {
    forall i :: 0 <= i < |events| ==>
      match events[i]
      case Receive(_, fault) => fault != AfterCommit
      case Startup(faults, crashed) => !crashed && AfterCommit !in faults
  }

  /** What is stored is never tried again. */
  ghost predicate StoresOnce(save: SaveCall) {
    forall store: Store, a: AggregatedTagRead, i: nat :: save(store, a, i).stored ==> !save(store, a, i).raised
  }

  lemma {:induction false} DrainOnce(store: Store, file: seq<AggregatedTagRead>, save: SaveCall, i: nat)
    requires i <= |file| && StoresOnce(save)
    ensures Drain(store, file, save, i).again == []
    decreases |file| - i
  {
    if i < |file| && !save(store, file[i], i).raised {
      DrainOnce(save(store, file[i], i).store, file, save, i + 1);
    }
  }

  lemma SavingOnce(window: int, faults: seq<Fault>)
    requires AfterCommit !in faults
    ensures StoresOnce(Saving(window, faults))
  {
  }

  lemma CleanStep(s: State, e: Event, window: int)
    requires CleanFaults([e])
    ensures Step(s, e, window).ledger.again == s.ledger.again
  {
    assert e == [e][0];
    match e
    case Receive(a, fault) =>
    case Startup(faults, crashed) =>
      SavingOnce(window, faults);
      DrainOnce(s.store, s.file, Saving(window, faults), 0);
  }

  lemma {:induction false} NothingAgain(readers: map<int, Reader>, events: seq<Event>, window: int)
    requires CleanFaults(events)
    ensures Run(Initial(readers), events, window).ledger.again == multiset{}
  {
    if events != [] {
      NothingAgain(readers, Front(events), window);
      assert Last(events) == events[|events| - 1];
      CleanStep(Run(Initial(readers), Front(events), window), Last(events), window);
    }
  }

  /**
   * Exactly once: if failures strike before the commit only and no read has a GPS time, every
   * received read is in exactly one of the table, the dropped reads and the file.
   */
  lemma ExactlyOnce(readers: map<int, Reader>, events: seq<Event>, window: int)
    requires CleanFaults(events) && AllStorable(ReceivedReads(events))
    ensures var s := Run(Initial(readers), events, window);
            multiset(ReceivedReads(events)) == multiset(s.ledger.stored) + s.ledger.dropped + multiset(s.file)
  {
    StorableAreKept(readers, events, window);
    NothingAgain(readers, events, window);
    assert multiset(ReceivedReads(events)) + multiset{} == multiset(ReceivedReads(events));
  }

  /**
   * A read with a GPS time survives its first save attempt exactly when that attempt commits or
   * drops it: an attempt that raises before its commit loses the read, for `append` raises too.
   */
  lemma GpsReadIsLost(s: State, a: AggregatedTagRead, window: int, fault: Fault)
    requires !Storable(a)
    ensures Log(s, a, window, fault).ledger.lost == s.ledger.lost + multiset{a} <==>
            fault == BeforeCommit || Judge(s.store.readers, a.event).Refused?
    ensures Log(s, a, window, fault).file == s.file
  {
    var before, after := s.ledger.lost, Log(s, a, window, fault).ledger.lost;
    if fault != BeforeCommit && !Judge(s.store.readers, a.event).Refused? {
      assert after[a] == before[a] != (before + multiset{a})[a];
    }
  }

  // ----- sessions under faults -----

  /**
   * Sessions under faults, exactly: over any run of reads, faults, replays and crashes whose saves
   * come in time order, the rows of a key are the sessions of its saves if and only if none of the
   * stored reads added a row of the key when it already stood for several events.
   */
  lemma ServerSessionsExactly(readers: map<int, Reader>, events: seq<Event>, window: int, key: Key)
    requires InOrder(Run(Initial(readers), events, window).store.log)
    ensures var s := Run(Initial(readers), events, window);
            RecordsAll(RowsOf(s.store.rows, key), Runs(TimesOf(s.store.log, key), window)) <==>
            NeverAddsLate(Store(readers, [], []), s.ledger.stored, window, key)
  {
    NoReadIsLost(readers, events, window);
    SessionsExactly(readers, Run(Initial(readers), events, window).ledger.stored, window, key);
  }

  // ----- the file as a queue -----

  /** The reads put into the file by a run, in order. */
  function Appended(s: State, events: seq<Event>, window: int): seq<AggregatedTagRead> {
    if events == [] then []
    else
      var earlier, m := Appended(s, Front(events), window), Run(s, Front(events), window);
      match Last(events)
      case Receive(a, fault) => earlier + One(a, Try(m.store, a, window, fault).raised && Storable(a))
      case Startup(_, _) => earlier
  }

  /** How many lines a step takes out of the file: what a replay returned, unless it was cut off. */
  function TakenBy(m: State, e: Event, window: int): (n: nat)
    ensures n <= |m.file|
  {
    match e
    case Receive(_, _) => 0
    case Startup(faults, crashed) => if crashed then 0 else Replay(m, window, faults).count
  }

  /** How many lines a run takes out: the counts its replays returned, added up. */
  function Taken(s: State, events: seq<Event>, window: int): nat {
    if events == [] then 0
    else Taken(s, Front(events), window) + TakenBy(Run(s, Front(events), window), Last(events), window)
  }

  /** The reads taken out of the file by the replays of a run, in order. */
  function Replayed(s: State, events: seq<Event>, window: int): seq<AggregatedTagRead> {
    if events == [] then []
    else
      var m := Run(s, Front(events), window);
      Replayed(s, Front(events), window) + m.file[..TakenBy(m, Last(events), window)]
  }

  /**
   * The buffer is a durable queue: over any run from any state, what replays took out, then what
   * the file holds, is what the file held and what was put in, in order; and the counts that the
   * replays returned add up to the number taken out.
   */
  lemma {:induction false} FileIsAQueue(s: State, events: seq<Event>, window: int)
    ensures s.file + Appended(s, events, window) == Replayed(s, events, window) + Run(s, events, window).file
    ensures Taken(s, events, window) == |Replayed(s, events, window)|
  {
    if events == [] {
      AppendNothing(s.file);
    } else {
      FileIsAQueue(s, Front(events), window);
      var m, out := Run(s, Front(events), window), Replayed(s, Front(events), window);
      match Last(events)
      case Receive(a, fault) =>
        var line := One(a, Try(m.store, a, window, fault).raised && Storable(a));
        Associate(s.file, Appended(s, Front(events), window), line);
        Associate(out, m.file, line);
        AppendNothing(out);
      case Startup(faults, crashed) =>
        var count := TakenBy(m, Last(events), window);
        Split(m.file, count);
        Associate(out, m.file[..count], m.file[count..]);
    }
  }

  // ----- lines that can never be saved -----

  /**
   * `save` raises for this read even when there is no outage: its EPC is none or too long, its
   * reader is not registered, or its antenna, channel, direction, zone or location overflows the
   * column.
   */
  predicate NeverSaved(readers: map<int, Reader>, a: AggregatedTagRead) {
    Judge(readers, a.event).Refused?
  }

  function Refused(readers: map<int, Reader>): AggregatedTagRead -> bool {
    a => NeverSaved(readers, a)
  }

  /** How many lines come before the first that can never be saved. */
  function BeforeRefused(readers: map<int, Reader>, file: seq<AggregatedTagRead>): (k: nat)
    ensures k <= |file|
    ensures forall j :: 0 <= j < k ==> !NeverSaved(readers, file[j])
    ensures k < |file| ==> NeverSaved(readers, file[k])
  {
    FirstWhere(file, Refused(readers))
  }

  /** Whatever the outages, the save raises for the refused reads, and keeps the readers as they are. */
  ghost predicate Refuses(save: SaveCall, readers: map<int, Reader>, refused: AggregatedTagRead -> bool) {
    forall store: Store, a: AggregatedTagRead, i: nat :: SameConfiguration(readers, store.readers) ==>
      && (refused(a) ==> save(store, a, i).raised && save(store, a, i).store == store)
      && SameConfiguration(readers, save(store, a, i).store.readers)
  }

  /** Without outages it raises for no others, and leaves the database as one save does. */
  ghost predicate RefusesOnly(
    save: SaveCall, readers: map<int, Reader>, refused: AggregatedTagRead -> bool, window: int)
  {
    forall store: Store, a: AggregatedTagRead, i: nat :: SameConfiguration(readers, store.readers) && !refused(a) ==>
      !save(store, a, i).raised && save(store, a, i).store == SaveAll(store, [a], window)
  }

  lemma SavingRefuses(window: int, faults: seq<Fault>, readers: map<int, Reader>)
    ensures Refuses(Saving(window, faults), readers, Refused(readers))
  {
    forall store: Store, a: AggregatedTagRead, i: nat | SameConfiguration(readers, store.readers)
      ensures Refused(readers)(a) ==>
                Saving(window, faults)(store, a, i).raised && Saving(window, faults)(store, a, i).store == store
      ensures SameConfiguration(readers, Saving(window, faults)(store, a, i).store.readers)
    {
      ConfigurationDecides(readers, store.readers, a.event);
      SaveKeepsConfiguration(store, a, window);
    }
  }

  lemma TrySavesOthers(store: Store, a: AggregatedTagRead, window: int, readers: map<int, Reader>)
    requires SameConfiguration(readers, store.readers) && !Refused(readers)(a)
    ensures var t := Try(store, a, window, Healthy); !t.raised && t.store == SaveAll(store, [a], window)
  {
    ConfigurationDecides(readers, store.readers, a.event);
    FrontOfSnoc([], a);
  }

  lemma SavingTries(window: int, faults: seq<Fault>, store: Store, a: AggregatedTagRead, i: nat)
    ensures Saving(window, faults)(store, a, i) ==
            Try(store, a, window, if i < |faults| then faults[i] else Healthy)
  {
  }

  lemma SavingSavesOthers(window: int, readers: map<int, Reader>, store: Store, a: AggregatedTagRead, i: nat)
    returns (t: Tried)
    requires SameConfiguration(readers, store.readers) && !Refused(readers)(a)
    ensures t == Saving(window, [])(store, a, i) && !t.raised && t.store == SaveAll(store, [a], window)
  {
    SavingTries(window, [], store, a, i);
    TrySavesOthers(store, a, window, readers);
    t := Try(store, a, window, Healthy);
  }

  lemma SavingRefusesOnly(window: int, readers: map<int, Reader>)
    ensures RefusesOnly(Saving(window, []), readers, Refused(readers), window)
  {
    forall store: Store, a: AggregatedTagRead, i: nat
      | SameConfiguration(readers, store.readers) && !Refused(readers)(a)
      ensures !Saving(window, [])(store, a, i).raised
      ensures Saving(window, [])(store, a, i).store == SaveAll(store, [a], window)
    {
      var t := SavingSavesOthers(window, readers, store, a, i);
    }
  }

  /** A replay without faults gets exactly as far as the first line that can never be saved. */
  lemma {:induction false} FaultFreeDrain(
    store: Store, readers: map<int, Reader>, file: seq<AggregatedTagRead>, save: SaveCall,
    refused: AggregatedTagRead -> bool, window: int, i: nat, k: nat)
    requires Refuses(save, readers, refused) && RefusesOnly(save, readers, refused, window)
    requires SameConfiguration(readers, store.readers) && i <= k <= |file|
    requires forall j :: i <= j < k ==> !refused(file[j])
    requires k < |file| ==> refused(file[k])
    ensures var d := Drain(store, file, save, i); d.count == k && d.store == SaveAll(store, file[i..k], window)
    decreases k - i
  {
    if i < k {
      var t := save(store, file[i], i);
      FaultFreeDrain(t.store, readers, file, save, refused, window, i + 1, k);
      SaveAllAppend(store, [file[i]], file[i + 1..k], window);
      PeelSlice(file, i, k);
    } else {
      assert file[i..k] == [];
    }
  }

  lemma FaultFreeReplay(s: State, window: int)
    ensures var k, d := BeforeRefused(s.store.readers, s.file), Replay(s, window, []);
            d.count == k && d.store == SaveAll(s.store, s.file[..k], window)
  {
    var k, readers := BeforeRefused(s.store.readers, s.file), s.store.readers;
    SavingRefuses(window, [], readers);
    SavingRefusesOnly(window, readers);
    FaultFreeDrain(s.store, readers, s.file, Saving(window, []), Refused(readers), window, 0, k);
    assert s.file[0..k] == s.file[..k];
  }

  lemma TakenOnce(s: State, window: int, faults: seq<Fault>)
    ensures Taken(s, [Startup(faults, false)], window) == Replay(s, window, faults).count
  {
    assert Front([Startup(faults, false)]) == [];
  }

  /**
   * A start without faults delivers the lines before the first that can never be saved, and no
   * others: the database is as if they had been saved one by one, and the rest stays in the file.
   */
  lemma FaultFreeStart(s: State, window: int)
    ensures var k, t := BeforeRefused(s.store.readers, s.file), Step(s, Startup([], false), window);
            && t.file == s.file[k..]
            && t.store == SaveAll(s.store, s.file[..k], window)
            && Taken(s, [Startup([], false)], window) == k
  {
    FaultFreeReplay(s, window);
    TakenOnce(s, window, []);
  }

  /** A start without faults empties the file exactly when it holds no line that can never be saved. */
  lemma FileIsEmptied(s: State, window: int)
    ensures Step(s, Startup([], false), window).file == [] <==>
            forall i :: 0 <= i < |s.file| ==> !NeverSaved(s.store.readers, s.file[i])
  {
    FaultFreeStart(s, window);
  }

  /** Whatever the faults, a replay does not get past a line that can never be saved. */
  lemma {:induction false} DrainStops(
    store: Store, readers: map<int, Reader>, file: seq<AggregatedTagRead>, save: SaveCall,
    refused: AggregatedTagRead -> bool, i: nat, k: nat)
    requires Refuses(save, readers, refused) && SameConfiguration(readers, store.readers)
    requires i <= k < |file| && refused(file[k])
    ensures Drain(store, file, save, i).count <= k
    decreases k - i
  {
    var t := save(store, file[i], i);
    if i < k && !t.raised {
      DrainStops(t.store, readers, file, save, refused, i + 1, k);
    }
  }

  lemma {:induction false} DrainKeepsConfiguration(
    store: Store, readers: map<int, Reader>, file: seq<AggregatedTagRead>, save: SaveCall,
    refused: AggregatedTagRead -> bool, i: nat)
    requires Refuses(save, readers, refused) && SameConfiguration(readers, store.readers) && i <= |file|
    ensures SameConfiguration(readers, Drain(store, file, save, i).store.readers)
    decreases |file| - i
  {
    if i < |file| && !save(store, file[i], i).raised {
      DrainKeepsConfiguration(save(store, file[i], i).store, readers, file, save, refused, i + 1);
    }
  }

  /** No run registers readers, removes them or changes their scheme filters. */
  lemma {:induction false} RunKeepsConfiguration(s: State, events: seq<Event>, window: int)
    ensures SameConfiguration(s.store.readers, Run(s, events, window).store.readers)
  {
    if events != [] {
      var readers, m := s.store.readers, Run(s, Front(events), window);
      RunKeepsConfiguration(s, Front(events), window);
      match Last(events)
      case Receive(a, fault) =>
        SaveKeepsConfiguration(m.store, a, window);
      case Startup(faults, _) =>
        SavingRefuses(window, faults, readers);
        DrainKeepsConfiguration(m.store, readers, m.file, Saving(window, faults), Refused(readers), 0);
    }
  }

  lemma ReplayStops(m: State, readers: map<int, Reader>, k: nat, faults: seq<Fault>, window: int)
    requires k < |m.file| && NeverSaved(readers, m.file[k]) && SameConfiguration(readers, m.store.readers)
    ensures Replay(m, window, faults).count <= k
  {
    SavingRefuses(window, faults, readers);
    DrainStops(m.store, readers, m.file, Saving(window, faults), Refused(readers), 0, k);
  }

  lemma Shifted<T>(before: seq<T>, added: seq<T>, removed: seq<T>, after: seq<T>, k: nat)
    requires before + added == removed + after && |removed| <= k < |before|
    ensures k - |removed| < |after| && after[k - |removed|] == before[k]
    ensures before[|removed|..] <= after
  {
    var all := before + added;
    assert after == all[|removed|..];
    assert all[k] == before[k];
  }

  lemma {:induction false} NotTaken(s: State, k: nat, events: seq<Event>, window: int)
    requires k < |s.file| && NeverSaved(s.store.readers, s.file[k])
    ensures Taken(s, events, window) <= k
  {
    if events != [] {
      var n, m := Taken(s, Front(events), window), Run(s, Front(events), window);
      NotTaken(s, k, Front(events), window);
      FileIsAQueue(s, Front(events), window);
      Shifted(s.file, Appended(s, Front(events), window), Replayed(s, Front(events), window), m.file, k);
      RunKeepsConfiguration(s, Front(events), window);
      if Last(events).Startup? {
        ReplayStops(m, s.store.readers, k - n, Last(events).faults, window);
      }
    }
  }

  /**
   * A line whose read can never be saved holds up itself and everything behind it: no later run
   * takes out more than the lines before it, and the others stay at the front of the file.
   */
  lemma BlockedForever(s: State, k: nat, events: seq<Event>, window: int)
    requires k < |s.file| && NeverSaved(s.store.readers, s.file[k])
    ensures var n := Taken(s, events, window); n <= k && s.file[n..] <= Run(s, events, window).file
  {
    NotTaken(s, k, events, window);
    FileIsAQueue(s, events, window);
    Shifted(s.file, Appended(s, events, window), Replayed(s, events, window), Run(s, events, window).file, k);
  }

  /**
   * When buffered reads are delivered, exactly: some later run takes line `k` out of the file if
   * and only if no line up to it can never be saved. The next start without faults then does.
   */
  lemma DeliveredExactly(s: State, k: nat, window: int)
    requires k < |s.file|
    ensures (exists events :: Taken(s, events, window) > k) <==>
            forall j :: 0 <= j <= k ==> !NeverSaved(s.store.readers, s.file[j])
    ensures (forall j :: 0 <= j <= k ==> !NeverSaved(s.store.readers, s.file[j])) ==>
              Taken(s, [Startup([], false)], window) > k
  {
    FaultFreeStart(s, window);
    forall events, j | 0 <= j <= k && NeverSaved(s.store.readers, s.file[j])
      ensures Taken(s, events, window) <= k
    {
      NotTaken(s, j, events, window);
    }
  }

  /** A read that can never be saved and has no GPS time goes into the file, whatever the fault. */
  lemma RefusedIsBuffered(s: State, a: AggregatedTagRead, window: int, fault: Fault)
    requires NeverSaved(s.store.readers, a) && Storable(a)
    ensures Log(s, a, window, fault).file == s.file + [a] && Log(s, a, window, fault).store == s.store
  {
  }

  /**
   * Such a read blocks the buffer for good: whatever the fault of its save and whatever happens
   * later, it is written to the file and never taken out, nor is anything behind it.
   */
  lemma RefusedBlocksTheFile(s: State, a: AggregatedTagRead, window: int, fault: Fault, later: seq<Event>)
    requires NeverSaved(s.store.readers, a) && Storable(a)
    ensures var t := Log(s, a, window, fault);
            && t.file == s.file + [a]
            && Run(t, later, window).file != []
            && Taken(t, later, window) <= |s.file|
  {
    RefusedIsBuffered(s, a, window, fault);
    BlockedForever(Log(s, a, window, fault), |s.file|, later, window);
  }

  // ----- the service -----

  class Service {
    const repository: TagReadRepository
    const buffer: EventBuffer
    ghost var ledger: Ledger

    ghost predicate Valid()
      reads this, buffer
    {
      buffer.Valid()
    }

    ghost function Contents(): State
      reads this, repository, buffer
    {
      State(repository.Contents(), buffer.pending, ledger)
    }

    constructor (window: int, readers: map<int, Reader>)
      ensures Valid() && Contents() == Initial(readers) && repository.window == window
      ensures fresh(repository) && fresh(buffer)
    {
      repository := new TagReadRepository(window, readers);
      buffer := new EventBuffer();
      ledger := Initial(readers).ledger;
    }

    /** Raises only when the save failed and the read cannot be written to the file. */
    method LogTagRead(a: AggregatedTagRead, fault: Fault) returns (raised: bool)
      requires Valid()
      modifies this, repository, buffer
      ensures Valid()
      ensures Contents() == Log(old(Contents()), a, repository.window, fault)
      ensures raised <==> Try(old(repository.Contents()), a, repository.window, fault).raised && !Storable(a)
      ensures buffer.pending == old(buffer.pending) +
              if Try(old(repository.Contents()), a, repository.window, fault).raised && Storable(a) then [a] else []
    {
      ghost var t := Try(repository.Contents(), a, repository.window, fault);
      ghost var after := Logged(Contents(), a, t);
      var failed := TrySave(repository, a, fault);
      raised := false;
      if failed {
        raised := buffer.Append(a);
      }
      ledger := after.ledger;
    }

    /** The replay at the start of `main`. */
    method Start(faults: seq<Fault>) returns (count: nat)
      requires Valid()
      modifies this, repository, buffer
      ensures Valid()
      ensures Contents() == Step(old(Contents()), Startup(faults, false), repository.window)
      ensures count == Replay(old(Contents()), repository.window, faults).count
      ensures buffer.pending == old(buffer.pending)[count..]
    {
      ghost var before := Contents();
      count := buffer.Replay(repository, faults);
      ledger := Step(before, Startup(faults, false), repository.window).ledger;
    }
  }
}
