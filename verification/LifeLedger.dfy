/** Conservation over whole lives on a database: what is owed to an id across crashes and restarts. */
module LifeLedger {
  import opened Basics
  import opened Metrics
  import opened MemStore
  import opened Server
  import opened Runs
  import opened DbTable
  import opened Agreement
  import opened Lives
  import Db = DbStore

  /** One account for live memory, one for the table: a batch that failed part way moves only the first. */
  datatype Books = Books(live: Account, durable: Account)

  function TotalReading(a: Account): Option<Reading> {
    match Wrapped(a.total) case None => None case Some(n) => Some(Total(n))
  }

  function LevelReading(a: Account): Option<Reading> { match a.level case None => None case Some(v) => Some(Level(v)) }

  /** The table holds the account: the wrapped sum of the counter and the last value of the gauge. */
  predicate TableHolds(t: Db.Table, id: string, a: Account) {
    TableReading(t, Key(COUNTER, id)) == TotalReading(a) && TableReading(t, Key(GAUGE, id)) == LevelReading(a)
  }

  lemma HoldsIsReading(s: seq<Metric>, id: string, a: Account)
    requires AllWellTyped(s)
    ensures Holds(s, id, a)
            <==> Read(s, Key(COUNTER, id)) == TotalReading(a) && Read(s, Key(GAUGE, id)) == LevelReading(a)
  {
    var c, g := Lookup(s, Key(COUNTER, id)), Lookup(s, Key(GAUGE, id));
    assert c.Some? ==> ReadingOf(c.value) == Total(c.value.delta.value);
    assert g.Some? ==> ReadingOf(g.value) == Level(g.value.value.value);
  }

  function TableOpening(t: Db.Table, id: string): Account {
    var c, g := TableReading(t, Key(COUNTER, id)), TableReading(t, Key(GAUGE, id));
    Account(if c.Some? && c.value.Total? then Some(c.value.delta) else None,
            if g.Some? && g.value.Level? then Some(g.value.value) else None)
  }

  predicate RowTaken(before: Disk, after: Disk, id: string) {
    before.Table? && after.Table? && id in before.rows && id !in after.rows
  }

  ghost predicate FlushedImage(w: World, disk: Disk) {
    w.disk.Table? && disk.Table? && Db.FlushRows(w.disk.rows, w.mem) == Some(disk.rows)
  }

  /**
    * A call is booked for memory, and all of memory for the table once it is flushed. A delete goes to the table
    * by itself. A restart brings back what the table held, or live memory if a flush of it was committed, or
    * nothing if a delete had just taken the row.
    */
  ghost function NextBooks(c: Config, w: World, b: Books, id: string, e: Event): Books {
    match e
    case Call(op) =>
      var live := Booked(c, b.live, id, op);
      Books(live, if Settles(c, w, e) then live
                  else if op.Delete? then Booked(c, b.durable, id, op)
                  else b.durable)
    case Restart(disk, _) =>
      var found := if disk == w.disk then b.durable
                   else if FlushedImage(w, disk) then b.live
                   else if RowTaken(w.disk, disk, id) then Account(None, None)
                   else b.durable;
      Books(found, found)
  }

  ghost function BooksAfter(c: Config, w: World, b: Books, id: string, life: seq<Event>): Books
    requires PossibleLife(c, w, life)
    decreases |life|
  {
    if life == [] then b else BooksAfter(c, After(c, w, life[0]), NextBooks(c, w, b, id, life[0]), id, life[1..])
  }

  ghost predicate Balanced(w: World, b: Books, id: string) {
    Tracked(w) && Holds(w.mem, id, b.live) && TableHolds(w.disk.rows, id, b.durable)
  }

  lemma TrackedIsSound(w: World)
    requires Tracked(w)
    ensures Sound(w.mem)
  {
  }

  /** In agreement the table holds what memory holds. */
  lemma AgreementBooks(w: World, id: string, a: Account)
    requires Tracked(w) && InAgreement(w)
    ensures Holds(w.mem, id, a) <==> TableHolds(w.disk.rows, id, a)
  {
    TrackedIsSound(w);
    HoldsIsReading(w.mem, id, a);
    AgreePointwise(w.mem, w.disk.rows);
  }

  /** Without a flush only the DELETE of a delete moves the table. */
  lemma UnsettledDisk(c: Config, w: World, op: Op)
    requires Tracked(w) && OpSqlWorks(op) && !Settles(c, w, Call(op))
    ensures Step(c, w, op).0.disk
            == if op.Delete? && Known(w.mem, op.key) then Table(Db.DeleteRow(w.disk.rows, op.key)) else w.disk
  {
    if op.Delete? && Known(w.mem, op.key) {
      assert Storable(w.mem[IndexOf(w.mem, op.key)]);
      Db.KnownTypesAreText(op.key);
    }
  }

  /** A tracked table has no value for a key that memory does not know. */
  lemma UnknownReadsNone(w: World, k: Key)
    requires Tracked(w) && !Known(w.mem, k)
    ensures TableReading(w.disk.rows, k).None?
  {
    if TableReading(w.disk.rows, k).Some? {
      TableReadingShape(w.disk.rows, k);
    }
  }

  /** What a delete books for the table is right whether or not there was anything to delete. */
  lemma DeleteBooks(w: World, k: Key, id: string, a: Account, c: Config, io: Io)
    requires Tracked(w) && TableHolds(w.disk.rows, id, a)
    ensures var rows := if Known(w.mem, k) then Db.DeleteRow(w.disk.rows, k) else w.disk.rows;
            TableHolds(rows, id, Booked(c, a, id, Delete(k, io)))
  {
    DeletedRowReads(w.disk.rows, k, Key(COUNTER, id));
    DeletedRowReads(w.disk.rows, k, Key(GAUGE, id));
    if !Known(w.mem, k) {
      UnknownReadsNone(w, k);
    }
  }

  lemma CallBalances(c: Config, w: World, b: Books, id: string, op: Op)
    requires Balanced(w, b, id) && OpFits(c, w.mem, op) && OpSqlWorks(op) && OpAdmissible(c, op)
    ensures Balanced(Step(c, w, op).0, NextBooks(c, w, b, id, Call(op)), id)
  {
    var next := Step(c, w, op).0;
    TrackedIsSound(w);
    StepTracked(c, w, op);
    StepBooks(c, w, op, id, b.live);
    if Settles(c, w, Call(op)) {
      AgreementBooks(next, id, Booked(c, b.live, id, op));
    } else {
      UnsettledDisk(c, w, op);
      if op.Delete? {
        DeleteBooks(w, op.key, id, b.durable, c, op.io);
      }
    }
  }

  lemma TakenRowBooks(t: Db.Table, d: Key, id: string, a: Account)
    requires WellFormedTable(t) && TableHolds(t, id, a)
    ensures var rows := Db.DeleteRow(t, d);
            TableHolds(rows, id, if id in t && id !in rows then Account(None, None) else a)
  {
    var rows := Db.DeleteRow(t, d);
    assert id in t && id in rows ==> rows[id] == t[id];
  }

  /** The table a restart finds holds the account that is booked for it. */
  lemma ImageBooks(c: Config, w: World, b: Books, id: string, disk: Disk, loads: Loads)
    requires Balanced(w, b, id) && CrashDisk(c, w, disk)
    ensures disk.Table? && TableHolds(disk.rows, id, NextBooks(c, w, b, id, Restart(disk, loads)).durable)
  {
    var before := w.disk.rows;
    if disk == w.disk {
    } else if FlushedImage(w, disk) {
      FlushSettles(w.mem, before);
      AgreementBooks(World(w.mem, disk), id, b.live);
    } else {
      var d :| Known(w.mem, d) && disk.rows == Db.DeleteRow(before, d);
      TakenRowBooks(before, d, id, b.durable);
    }
  }

  lemma RestartBalances(c: Config, w: World, b: Books, id: string, e: Event)
    requires Balanced(w, b, id) && e.Restart? && Possible(c, w, e) && EventFits(c, w, e)
    ensures Balanced(After(c, w, e), NextBooks(c, w, b, id, e), id)
  {
    ImageBooks(c, w, b, id, e.disk, e.loads);
    RestartTracked(c, w, e);
    AgreementBooks(After(c, w, e), id, NextBooks(c, w, b, id, e).durable);
  }

  lemma {:induction false} LifeBalances(c: Config, w: World, b: Books, id: string, life: seq<Event>)
    requires PossibleLife(c, w, life) && LifeFits(c, w, life) && LifeAdmissible(c, life)
    ensures Balanced(w, b, id) ==> Balanced(Worlds(c, w, life)[|life|], BooksAfter(c, w, b, id, life), id)
    decreases |life|
  {
    if life != [] && Balanced(w, b, id) {
      var next := After(c, w, life[0]);
      if life[0].Call? {
        CallBalances(c, w, b, id, life[0].op);
      } else {
        RestartBalances(c, w, b, id, life[0]);
      }
      LifeBalances(c, next, NextBooks(c, w, b, id, life[0]), id, life[1..]);
    }
  }

  lemma TableOpeningHolds(t: Db.Table, id: string)
    requires WellFormedTable(t)
    ensures TableHolds(t, id, TableOpening(t, id))
  {
    assert id in t ==> WellFormedRow(id, t[id]);
  }

  lemma OpeningBalances(w: World, id: string)
    requires Tracked(w)
    ensures Balanced(w, Books(Opening(w.mem, id), TableOpening(w.disk.rows, id)), id)
  {
    TrackedIsSound(w);
    HoldsIsReading(w.mem, id, Opening(w.mem, id));
    TableOpeningHolds(w.disk.rows, id);
  }

  /**
    * Conservation over whole lives: after any calls that fit, crashes and restarts that see all rows, live memory
    * holds the account of memory and the table that of the table, whatever happened between the two.
    */
  lemma LifeConservation(c: Config, w: World, id: string, life: seq<Event>)
    requires Tracked(w) && PossibleLife(c, w, life)
    requires LifeFits(c, w, life) && LifeAdmissible(c, life)
    ensures var opening := Books(Opening(w.mem, id), TableOpening(w.disk.rows, id));
            var last, b := Worlds(c, w, life)[|life|], BooksAfter(c, w, opening, id, life);
            last.disk.Table? && Holds(last.mem, id, b.live) && TableHolds(last.disk.rows, id, b.durable)
  {
    OpeningBalances(w, id);
    LifeBalances(c, w, Books(Opening(w.mem, id), TableOpening(w.disk.rows, id)), id, life);
  }

  // ---- Lives whose restarts change nothing ----

  /** The bookkeeping of a life that never looks at a restart. */
  function CallLedger(c: Config, a: Account, id: string, life: seq<Event>): Account
    decreases |life|
  {
    if life == [] then a
    else CallLedger(c, if life[0].Call? then Booked(c, a, id, life[0].op) else a, id, life[1..])
  }

  /** No restart comes while the table lags behind memory, or takes the row of the id. */
  ghost predicate RestartsSpare(c: Config, w: World, id: string, life: seq<Event>)
    requires PossibleLife(c, w, life)
    decreases |life|
  {
    life == []
    || ((life[0].Restart? ==> InAgreement(w) && !RowTaken(w.disk, life[0].disk, id))
        && RestartsSpare(c, After(c, w, life[0]), id, life[1..]))
  }

  lemma SparedReads(c: Config, w: World, e: Event, k: Key)
    requires Tracked(w) && InAgreement(w) && e.Restart? && Possible(c, w, e) && EventFits(c, w, e)
    requires !RowTaken(w.disk, e.disk, k.id)
    ensures Read(After(c, w, e).mem, k) == Read(w.mem, k)
  {
    AgreedValuesSurvive(c, w, e, k);
    AgreePointwise(w.mem, w.disk.rows);
  }

  lemma SparedHolds(c: Config, w: World, e: Event, id: string, a: Account)
    requires Tracked(w) && InAgreement(w) && e.Restart? && Possible(c, w, e) && EventFits(c, w, e)
    requires !RowTaken(w.disk, e.disk, id) && Holds(w.mem, id, a)
    ensures Holds(After(c, w, e).mem, id, a)
  {
    RestartTracked(c, w, e);
    TrackedIsSound(w);
    TrackedIsSound(After(c, w, e));
    HoldsIsReading(w.mem, id, a);
    HoldsIsReading(After(c, w, e).mem, id, a);
    SparedReads(c, w, e, Key(COUNTER, id));
    SparedReads(c, w, e, Key(GAUGE, id));
  }

  /**
    * When restarts happen in agreement and take no row of the id, they might as well not be there: memory holds
    * the wrapped sum of all deltas accepted over the whole life since the last delete, and the last gauge value.
    */
  lemma {:induction false} RestartsAreInvisible(c: Config, w: World, id: string, life: seq<Event>, a: Account)
    requires Tracked(w) && PossibleLife(c, w, life) && LifeFits(c, w, life)
    requires LifeAdmissible(c, life) && RestartsSpare(c, w, id, life) && Holds(w.mem, id, a)
    ensures Holds(Worlds(c, w, life)[|life|].mem, id, CallLedger(c, a, id, life))
    decreases |life|
  {
    if life == [] {
    } else {
      var e := life[0];
      EventTracked(c, w, e);
      if e.Call? {
        TrackedIsSound(w);
        StepBooks(c, w, e.op, id, a);
      } else {
        SparedHolds(c, w, e, id, a);
      }
      RestartsAreInvisible(c, After(c, w, e), id, life[1..], if e.Call? then Booked(c, a, id, e.op) else a);
    }
  }
}
