/** Database write-through: after every write that returns nil, the table could restore live memory. */
module Agreement {
  import opened Basics
  import opened Metrics
  import opened MemStore
  import opened Server
  import opened Runs
  import opened DbTable
  import Db = DbStore
  import Fs = FileStore

  function OtherType(mtype: string): string { if mtype == GAUGE then COUNTER else GAUGE }

  /** What keeps an accepted metric restorable: storable, and its id not stored under the other type. */
  predicate Fits(s: seq<Metric>, m: Metric) { Storable(m) && !Known(s, Key(OtherType(m.mtype), m.id)) }

  predicate BatchFits(c: Config, s: seq<Metric>, ms: seq<Metric>)
    decreases |ms|
  {
    ms == [] || (Admit(c, s, ms[0]).Ok? ==>
                   Fits(s, ms[0]) && BatchFits(c, Upserted(s, Admit(c, s, ms[0]).value), ms[1..]))
  }

  predicate OpFits(c: Config, s: seq<Metric>, op: Op) {
    match op
    case Upsert(m, _) => Admit(c, s, m).Ok? ==> Fits(s, m)
    case UpsertBatch(ms, _) => BatchFits(c, s, ms)
    case _ => true
  }

  predicate SqlWorks(io: Io) { io.sql.NoFault? && !io.deleteFails }

  predicate OpSqlWorks(op: Op) {
    match op
    case Upsert(_, io) => SqlWorks(io)
    case UpsertBatch(_, io) => SqlWorks(io)
    case Delete(_, io) => SqlWorks(io)
    case Tick(io) => SqlWorks(io)
    case GetBatch => true
  }

  /** Memory alone can be put into the table. */
  ghost predicate Keepable(s: seq<Metric>) { UniqueKeys(s) && AllStorable(s) && NoClash(s) }

  /** Every row with a name belongs to a metric in memory, its value perhaps behind after a half-done batch. */
  ghost predicate Traced(s: seq<Metric>, t: Db.Table) {
    WellFormedTable(t) && forall n :: n in t && n != "" ==> Known(s, Key(t[n].mtype.value, n))
  }

  ghost predicate Tracked(w: World) { w.disk.Table? && Keepable(w.mem) && Traced(w.mem, w.disk.rows) }

  ghost predicate InAgreement(w: World) { w.disk.Table? && Agree(w.mem, w.disk.rows) }

  lemma KnownStays(s: seq<Metric>, m: Metric, k: Key)
    requires UniqueKeys(s) && Known(s, k)
    ensures Known(Upserted(s, m), k)
  {
    UpsertRefinesMap(s, m);
    assert Lookup(Upserted(s, m), k).Some?;
  }

  lemma {:induction false} BatchKeepsKnown(c: Config, s: seq<Metric>, ms: seq<Metric>, k: Key)
    requires UniqueKeys(s) && Known(s, k)
    ensures Known(Batch(c, s, ms).mem, k)
    decreases |ms|
  {
    if ms == [] || Admit(c, s, ms[0]).Err? {
    } else {
      var a := Admit(c, s, ms[0]).value;
      KnownStays(s, a, k);
      UpsertRefinesMap(s, a);
      BatchKeepsKnown(c, Upserted(s, a), ms[1..], k);
    }
  }

  lemma AdmittedShape(c: Config, s: seq<Metric>, m: Metric)
    requires Admit(c, s, m).Ok?
    ensures var a := Admit(c, s, m).value;
            KeyOf(a) == KeyOf(m) && (Storable(a) <==> Storable(m)) && a.value == m.value
  {
  }

  lemma WriteThroughCall(c: Config, w: World, m: Metric, io: Io)
    requires c.writeThrough && w.disk.Table? && SqlWorks(io) && Admit(c, w.mem, m).Ok?
    ensures var s := Upserted(w.mem, Admit(c, w.mem, m).value);
            UpsertCall(c, w, m, io) == (World(s, Table(Db.FlushTable(w.disk.rows, s, Db.NoFault).0)), Done)
  {
  }

  lemma UnknownIsAbsent(s: seq<Metric>, k: Key, i: nat)
    requires !Known(s, k) && i < |s|
    ensures s[i].mtype != k.mtype || s[i].id != k.id
  {
  }

  lemma FittingStorable(s: seq<Metric>, a: Metric)
    requires AllStorable(s) && Storable(a)
    ensures AllStorable(Upserted(s, a))
  {
    var t := Upserted(s, a);
    forall i | 0 <= i < |t| ensures Storable(t[i]) {
      assert i < |s| ==> Storable(s[i]) && KeyOf(t[i]) == KeyOf(s[i]);
    }
  }

  /** Every entry after an Upsert has the key of a stored one, or of the new one. */
  lemma UpsertedKeyAt(s: seq<Metric>, a: Metric, i: nat)
    requires i < |Upserted(s, a)|
    ensures var k := KeyOf(Upserted(s, a)[i]); k == KeyOf(a) || (i < |s| && k == KeyOf(s[i]))
  {
  }

  lemma FittingNoClash(s: seq<Metric>, a: Metric)
    requires AllStorable(s) && NoClash(s) && Fits(s, a)
    ensures NoClash(Upserted(s, a))
  {
    forall i | 0 <= i < |s| ensures s[i].id == a.id ==> s[i].mtype == a.mtype {
      UnknownIsAbsent(s, Key(OtherType(a.mtype), a.id), i);
      assert Storable(s[i]);
    }
    var t := Upserted(s, a);
    forall i, j | 0 <= i < |t| && 0 <= j < |t| && t[i].id == t[j].id ensures t[i].mtype == t[j].mtype {
      UpsertedKeyAt(s, a, i);
      UpsertedKeyAt(s, a, j);
    }
  }

  lemma FittingKeepsNoClash(s: seq<Metric>, a: Metric)
    requires Keepable(s) && Fits(s, a)
    ensures Keepable(Upserted(s, a))
  {
    UpsertRefinesMap(s, a);
    FittingStorable(s, a);
    FittingNoClash(s, a);
  }

  lemma TracedStays(s: seq<Metric>, a: Metric, t: Db.Table)
    requires UniqueKeys(s) && Traced(s, t)
    ensures Traced(Upserted(s, a), t)
  {
    forall n | n in t && n != "" ensures Known(Upserted(s, a), Key(t[n].mtype.value, n)) {
      KnownStays(s, a, Key(t[n].mtype.value, n));
    }
  }

  lemma TracedNotStale(s: seq<Metric>, t: Db.Table)
    requires Traced(s, t)
    ensures NoStaleRow(s, t)
  {
  }

  lemma KeepableCommits(s: seq<Metric>, t: Db.Table)
    requires Keepable(s)
    ensures Db.FlushRows(t, s).Some?
  {
    forall i | 0 <= i < |s| ensures Db.StoredName(s[i].id).Some? {
      Db.StoredNameFits(s[i].id);
    }
    FlushSucceedsIff(t, s);
  }

  /** A flush of keepable memory with working SQL commits, and leaves table and memory in agreement. */
  lemma FlushSettles(s: seq<Metric>, t: Db.Table)
    requires Keepable(s) && Traced(s, t)
    ensures Db.FlushTable(t, s, Db.NoFault).1
    ensures Agree(s, Db.FlushTable(t, s, Db.NoFault).0) && Traced(s, Db.FlushTable(t, s, Db.NoFault).0)
  {
    KeepableCommits(s, t);
    TracedNotStale(s, t);
    CommittedFlushAgreesIff(t, s);
    var after := Db.FlushRows(t, s).value;
    FlushKeepsTable(t, s, Db.NoFault);
    forall n | n in after && n != "" ensures Known(s, Key(after[n].mtype.value, n)) {
      FlushedRow(t, s, n);
      var last := LastWriter(s, n, BOTH);
      if last >= 0 {
        Db.StoredNameFits(s[last].id);
        OnlyMatch(s, last);
      }
    }
  }

  lemma WrittenSettles(c: Config, w: World, io: Io)
    requires Tracked(w) && SqlWorks(io)
    ensures Tracked(Written(c, w, io)) && Written(c, w, io).mem == w.mem
    ensures c.writeThrough ==> InAgreement(Written(c, w, io))
    ensures !c.writeThrough ==> Written(c, w, io) == w
  {
    FlushSettles(w.mem, w.disk.rows);
  }

  lemma {:induction false} BatchTracked(c: Config, s: seq<Metric>, ms: seq<Metric>, t: Db.Table)
    requires Keepable(s) && Traced(s, t) && BatchFits(c, s, ms)
    ensures Keepable(Batch(c, s, ms).mem) && Traced(Batch(c, s, ms).mem, t)
    decreases |ms|
  {
    if ms == [] || Admit(c, s, ms[0]).Err? {
    } else {
      var a := Admit(c, s, ms[0]).value;
      AdmittedShape(c, s, ms[0]);
      FittingKeepsNoClash(s, a);
      TracedStays(s, a, t);
      BatchTracked(c, Upserted(s, a), ms[1..], t);
    }
  }

  lemma DeleteTracked(s: seq<Metric>, k: Key, t: Db.Table)
    requires Keepable(s) && Traced(s, t) && Known(s, k)
    ensures Keepable(Deleted(s, k)) && Traced(Deleted(s, k), Db.DeleteRow(t, k))
  {
    DeleteRefinesMap(s, k);
    var rest, rows := Deleted(s, k), Db.DeleteRow(t, k);
    assert forall i :: 0 <= i < |rest| ==> rest[i] in s;
    forall n | n in rows && n != "" ensures Known(rest, Key(rows[n].mtype.value, n)) {
      var q := Key(t[n].mtype.value, n);
      assert Lookup(rest, q) == if q == k then None else Lookup(s, q);
    }
  }

  lemma SignedKeepable(c: Config, s: seq<Metric>)
    requires Keepable(s)
    ensures Keepable(SignedAll(c, s))
  {
  }

  lemma SignedReads(c: Config, s: seq<Metric>, k: Key)
    ensures Read(SignedAll(c, s), k) == Read(s, k)
  {
  }

  lemma SignedAgrees(c: Config, s: seq<Metric>, t: Db.Table)
    ensures Agree(s, t) <==> Agree(SignedAll(c, s), t)
  {
    AgreePointwise(s, t);
    AgreePointwise(SignedAll(c, s), t);
    forall k ensures Read(SignedAll(c, s), k) == Read(s, k) {
      SignedReads(c, s, k);
    }
  }

  lemma SignedTraced(c: Config, s: seq<Metric>, t: Db.Table)
    requires Traced(s, t)
    ensures Traced(SignedAll(c, s), t)
  {
  }

  predicate IsWrite(op: Op) { op.Upsert? || op.UpsertBatch? || op.Delete? }

  /** With a zero flush interval every write that returns nil has flushed, with a positive one every tick has. */
  predicate Flushes(c: Config, w: World, op: Op) {
    if c.writeThrough then IsWrite(op) && Step(c, w, op).1.Done? else op.Tick?
  }

  /** With a positive interval and working SQL a tick always succeeds, and then table and memory agree. */
  lemma TickSettles(c: Config, w: World, io: Io)
    requires !c.writeThrough && Tracked(w) && SqlWorks(io)
    ensures var (after, outcome) := Step(c, w, Tick(io));
            outcome == Done && after.mem == w.mem && Tracked(after) && InAgreement(after)
  {
    FlushSettles(w.mem, w.disk.rows);
  }

  /**
    * One call with working SQL keeps the table tracked, and a call that flushes brings agreement about. With a
    * zero interval any other call keeps agreement, except a batch that failed part way.
    */
  lemma StepTracked(c: Config, w: World, op: Op)
    requires Tracked(w) && OpFits(c, w.mem, op) && OpSqlWorks(op)
    ensures Tracked(Step(c, w, op).0)
    ensures Flushes(c, w, op) ==> Step(c, w, op).1.Done? && InAgreement(Step(c, w, op).0)
    ensures c.writeThrough && InAgreement(w) && !(op.UpsertBatch? && !Step(c, w, op).1.Done?)
            ==> InAgreement(Step(c, w, op).0)
  {
    match op
    case Upsert(m, io) =>
      if Admit(c, w.mem, m).Ok? {
        var a := Admit(c, w.mem, m).value;
        AdmittedShape(c, w.mem, m);
        FittingKeepsNoClash(w.mem, a);
        TracedStays(w.mem, a, w.disk.rows);
        WrittenSettles(c, w.(mem := Upserted(w.mem, a)), io);
      }
    case UpsertBatch(ms, io) =>
      BatchTracked(c, w.mem, ms, w.disk.rows);
      WrittenSettles(c, w.(mem := Batch(c, w.mem, ms).mem), io);
    case Delete(k, io) =>
      if Known(w.mem, k) {
        assert Storable(w.mem[IndexOf(w.mem, k)]);
        Db.KnownTypesAreText(k);
        DeleteTracked(w.mem, k, w.disk.rows);
        WrittenSettles(c, World(Deleted(w.mem, k), Table(Db.DeleteRow(w.disk.rows, k))), io);
      }
    case GetBatch =>
      SignedKeepable(c, w.mem);
      SignedTraced(c, w.mem, w.disk.rows);
      SignedAgrees(c, w.mem, w.disk.rows);
    case Tick(io) =>
      if !c.writeThrough {
        TickSettles(c, w, io);
      }
  }

  // ---- Restart ----

  /** A start gets to see the row: by the query of dbstore.New, or by the manager's own restore. */
  predicate Loaded(c: Config, loads: Loads, n: string) {
    n in Db.Delivered(loads.first) || (c.restore && n in Db.Delivered(loads.second))
  }

  /** Every row that could be restored was delivered; a row with the empty name never is. */
  ghost predicate LoadsAll(c: Config, t: Db.Table, loads: Loads) {
    forall n :: n in t && n != "" ==> Loaded(c, loads, n)
  }

  /** Memory after a start, key by key, however much of the table was delivered and in whatever order. */
  lemma ReopenedLookup(c: Config, t: Db.Table, loads: Loads, k: Key)
    requires Feasible(Table(t), loads)
    ensures var s := Reopened(c, Table(t), loads);
            UniqueKeys(s) && Lookup(s, k) == if Loaded(c, loads, k.id) then TableMetric(t, k) else None
  {
    var first, second := Db.Delivered(loads.first), Db.Delivered(loads.second);
    var s := Db.RestoredRows([], t, first);
    RestoredUnique([], t, first);
    RestoredLookup([], t, first, k);
    RestoredUnique(s, t, second);
    RestoredLookup(s, t, second, k);
  }

  lemma ReopenedEntry(c: Config, t: Db.Table, loads: Loads, i: nat)
    requires WellFormedTable(t) && Feasible(Table(t), loads) && i < |Reopened(c, Table(t), loads)|
    ensures var m := Reopened(c, Table(t), loads)[i]; Storable(m) && m.id in t && t[m.id].mtype == Some(m.mtype)
  {
    var s := Reopened(c, Table(t), loads);
    ReopenedLookup(c, t, loads, KeyOf(s[i]));
    OnlyMatch(s, i);
    assert WellFormedRow(s[i].id, t[s[i].id]);
  }

  lemma ReopenedKeepable(c: Config, t: Db.Table, loads: Loads)
    requires WellFormedTable(t) && Feasible(Table(t), loads)
    ensures Keepable(Reopened(c, Table(t), loads))
  {
    var s := Reopened(c, Table(t), loads);
    ReopenedLookup(c, t, loads, Key("", ""));
    forall i | 0 <= i < |s| ensures Storable(s[i]) && s[i].id in t && t[s[i].id].mtype == Some(s[i].mtype) {
      ReopenedEntry(c, t, loads, i);
    }
  }

  lemma ReopenedReading(c: Config, t: Db.Table, loads: Loads, k: Key)
    requires Feasible(Table(t), loads) && LoadsAll(c, t, loads)
    ensures Read(Reopened(c, Table(t), loads), k) == TableReading(t, k)
  {
    ReopenedLookup(c, t, loads, k);
    assert k.id == "" ==> TableMetric(t, k).None?;
  }

  /** A start ends in agreement with its table exactly when every row with a name was delivered. */
  lemma RestartAgreesIff(c: Config, t: Db.Table, loads: Loads)
    requires WellFormedTable(t) && Feasible(Table(t), loads)
    ensures Agree(Reopened(c, Table(t), loads), t) <==> LoadsAll(c, t, loads)
  {
    var s := Reopened(c, Table(t), loads);
    AgreePointwise(s, t);
    if LoadsAll(c, t, loads) {
      forall k ensures Read(s, k) == TableReading(t, k) {
        ReopenedReading(c, t, loads, k);
      }
    }
    if forall k :: Read(s, k) == TableReading(t, k) {
      forall n | n in t && n != "" ensures Loaded(c, loads, n) {
        RowReads(t, n);
        ReopenedLookup(c, t, loads, Key(t[n].mtype.value, n));
        assert Read(s, Key(t[n].mtype.value, n)).Some?;
      }
    }
  }

  /** A server that got to see every row with a name begins tracked and in agreement. */
  lemma StartTracked(c: Config, rows: Db.Table, loads: Loads)
    requires WellFormedTable(rows) && Feasible(Table(rows), loads) && LoadsAll(c, rows, loads)
    ensures var w := World(Reopened(c, Table(rows), loads), Table(rows)); Tracked(w) && InAgreement(w)
  {
    var s := Reopened(c, Table(rows), loads);
    ReopenedKeepable(c, rows, loads);
    RestartAgreesIff(c, rows, loads);
    forall n | n in rows && n != "" ensures Known(s, Key(rows[n].mtype.value, n)) {
      RowReads(rows, n);
      ReopenedReading(c, rows, loads, Key(rows[n].mtype.value, n));
    }
  }

  /** The key reads as before the restart, unless a Delete of just this key was under way. */
  predicate Survives(w: World, after: World, k: Key)
    requires w.disk.Table?
  {
    || Read(after.mem, k) == Read(w.mem, k)
    || (after.disk == Table(Db.DeleteRow(w.disk.rows, k)) && Read(after.mem, k) == None)
  }

  ghost predicate AllSurvive(w: World, after: World)
    requires w.disk.Table?
  {
    forall k :: Survives(w, after, k)
  }

  lemma CrashTable(c: Config, w: World, disk: Disk)
    requires Tracked(w) && CrashDisk(c, w, disk)
    ensures disk.Table? && WellFormedTable(disk.rows)
  {
    FlushSettles(w.mem, w.disk.rows);
    if k :| Known(w.mem, k) && disk.rows == Db.DeleteRow(w.disk.rows, k) {
      DeletedRowReads(w.disk.rows, k, k);
    }
  }

  /** A crash before, during or after a flush or a delete, and a restart that sees all rows, end in agreement. */
  lemma RestartTracked(c: Config, w: World, e: Event)
    requires Tracked(w) && e.Restart? && Possible(c, w, e) && (e.disk.Table? ==> LoadsAll(c, e.disk.rows, e.loads))
    ensures Tracked(After(c, w, e)) && InAgreement(After(c, w, e))
  {
    CrashTable(c, w, e.disk);
    StartTracked(c, e.disk.rows, e.loads);
  }

  /** What memory and table agreed on before a crash is what the restarted server reads. */
  lemma AgreedValuesSurvive(c: Config, w: World, e: Event, k: Key)
    requires Tracked(w) && InAgreement(w) && e.Restart? && Possible(c, w, e)
    requires e.disk.Table? ==> LoadsAll(c, e.disk.rows, e.loads)
    ensures Survives(w, After(c, w, e), k)
  {
    var before, after := w.disk.rows, e.disk.rows;
    ReopenedReading(c, after, e.loads, k);
    AgreePointwise(w.mem, before);
    if after == before {
    } else if Db.FlushRows(before, w.mem) == Some(after) {
      FlushSettles(w.mem, before);
      AgreePointwise(w.mem, after);
    } else {
      var d :| Known(w.mem, d) && after == Db.DeleteRow(before, d);
      DeletedRowReads(before, d, k);
    }
  }

  ghost predicate EventFits(c: Config, w: World, e: Event) {
    match e
    case Call(op) => OpFits(c, w.mem, op) && OpSqlWorks(op)
    case Restart(disk, loads) => disk.Table? ==> LoadsAll(c, disk.rows, loads)
  }

  /** Every call of the life fits the store it meets, its SQL works, and every restart sees all rows. */
  ghost predicate LifeFits(c: Config, w: World, life: seq<Event>)
    requires PossibleLife(c, w, life)
    decreases |life|
  {
    life == [] || (EventFits(c, w, life[0]) && LifeFits(c, After(c, w, life[0]), life[1..]))
  }

  /** Events after which the two must agree: a restart, or a call that flushes. */
  ghost predicate Settles(c: Config, w: World, e: Event) {
    e.Restart? || Flushes(c, w, e.op)
  }

  lemma EventTracked(c: Config, w: World, e: Event)
    requires Tracked(w) && Possible(c, w, e) && EventFits(c, w, e)
    ensures Tracked(After(c, w, e)) && (Settles(c, w, e) ==> InAgreement(After(c, w, e)))
    ensures e.Restart? && InAgreement(w) ==> AllSurvive(w, After(c, w, e))
  {
    match e
    case Call(op) => StepTracked(c, w, op);
    case Restart(_, _) =>
      RestartTracked(c, w, e);
      if InAgreement(w) {
        forall k ensures Survives(w, After(c, w, e), k) {
          AgreedValuesSurvive(c, w, e, k);
        }
      }
  }

  /**
    * Whole lives with either kind of flushing: whenever a write has returned nil (zero interval), a tick has
    * passed (positive interval) or the server has restarted, restoring the table in any row order into an empty
    * store gives every key the value live memory gives it. And a crash in such a state takes no value away:
    * every key reads after the restart as it read before.
    */
  lemma {:induction false} LifeAgrees(c: Config, w: World, life: seq<Event>, i: nat)
    requires Tracked(w) && PossibleLife(c, w, life) && LifeFits(c, w, life) && i < |life|
    ensures var ws := Worlds(c, w, life);
            && Tracked(ws[i]) && Tracked(ws[i + 1])
            && (Settles(c, ws[i], life[i]) ==> InAgreement(ws[i + 1]))
            && (life[i].Restart? && InAgreement(ws[i]) ==> AllSurvive(ws[i], ws[i + 1]))
    decreases |life|
  {
    var ws, next := Worlds(c, w, life), After(c, w, life[0]);
    EventTracked(c, w, life[0]);
    assert ws == [w] + Worlds(c, next, life[1..]);
    if i > 0 {
      LifeAgrees(c, next, life[1..], i - 1);
    }
  }

  /**
    * Delete takes the metric out of memory before it runs its SQL, so a failing statement makes the call
    * return an error while memory has lost the metric, and the next restart brings it back.
    */
  lemma FailedDeleteComesBack(c: Config, w: World, k: Key, io: Io, loads: Loads)
    requires UniqueKeys(w.mem) && InAgreement(w) && Known(w.mem, k) && io.deleteFails
    requires Feasible(w.disk, loads) && LoadsAll(c, w.disk.rows, loads)
    ensures DeleteCall(c, w, k, io) == (World(Deleted(w.mem, k), w.disk), Failed(External))
    ensures !Known(Deleted(w.mem, k), k)
    ensures Read(Reopened(c, w.disk, loads), k) == Read(w.mem, k) != None
  {
    DeleteLookup(w.mem, k, k);
    ReopenedReading(c, w.disk.rows, loads, k);
    AgreePointwise(w.mem, w.disk.rows);
  }

  /** A delete on a table: the row stays when its SQL fails, else it goes and a flush may follow. */
  lemma DeleteCallCases(c: Config, w: World, k: Key, io: Io)
    requires w.disk.Table? && Known(w.mem, k)
    ensures var rest, rows := Deleted(w.mem, k), Db.DeleteRow(w.disk.rows, k);
            var flushed := if c.writeThrough then Db.FlushTable(rows, rest, io.sql).0 else rows;
            DeleteCall(c, w, k, io)
            == if io.deleteFails || Db.DeleteRefused(k) then (World(rest, w.disk), Failed(External))
               else (World(rest, Table(flushed)), Done)
  {
  }

  /** Neither the table without the row nor a flush of the remaining metrics into it knows the deleted key. */
  lemma DeletedKeyIsGone(s: seq<Metric>, t: Db.Table, k: Key, fault: Db.SqlFault)
    requires Keepable(s) && Traced(s, t) && Known(s, k)
    ensures var rest, rows := Deleted(s, k), Db.DeleteRow(t, k);
            TableReading(rows, k).None? && TableReading(Db.FlushTable(rows, rest, fault).0, k).None?
  {
    var rest, rows := Deleted(s, k), Db.DeleteRow(t, k);
    DeleteTracked(s, k, t);
    DeletedRowReads(t, k, k);
    DeleteLookup(s, k, k);
    FlushSettles(rest, rows);
    AgreePointwise(rest, Db.FlushTable(rows, rest, Db.NoFault).0);
  }

  /**
    * A delete undone by a restart is the exact sign of failed SQL: started again on its table, the server knows
    * the key iff the DELETE failed, whatever became of the flush that follows a DELETE that worked.
    */
  lemma DeleteComesBackIff(c: Config, w: World, k: Key, io: Io, loads: Loads)
    requires Tracked(w) && InAgreement(w) && Known(w.mem, k)
    ensures var disk := DeleteCall(c, w, k, io).0.disk;
            disk.Table? && (Feasible(disk, loads) && LoadsAll(c, disk.rows, loads) ==>
                              (Read(Reopened(c, disk, loads), k).Some? <==> io.deleteFails))
  {
    assert Storable(w.mem[IndexOf(w.mem, k)]);
    Db.KnownTypesAreText(k);
    DeleteCallCases(c, w, k, io);
    var disk := DeleteCall(c, w, k, io).0.disk;
    if Feasible(disk, loads) && LoadsAll(c, disk.rows, loads) {
      DeletedKeyIsGone(w.mem, w.disk.rows, k, io.sql);
      ReopenedReading(c, disk.rows, loads, k);
      AgreePointwise(w.mem, w.disk.rows);
    }
  }

  // ---- A start that did not get to see every row ----

  lemma CounterRow(t: Db.Table, id: string)
    requires id != "" && id in t && t[id].mtype == Some(COUNTER)
    ensures TableMetric(t, Key(COUNTER, id)) == Some(Metric(id, COUNTER, t[id].delta, None, ""))
    ensures TableMetric(t, Key(GAUGE, id)).None?
  {
  }

  lemma FirstAdmission(c: Config, t: Db.Table, loads: Loads, m: Metric)
    requires WellFormedTable(t) && Feasible(Table(t), loads) && Verified(c, m) && m.mtype == COUNTER && m.delta.Some?
    requires m.id != "" && m.id in t && t[m.id].mtype == Some(COUNTER)
    ensures var s, total := Reopened(c, Table(t), loads), Wrap64(m.delta.value + t[m.id].delta.value);
            && Fits(s, m)
            && Admit(c, s, m) == Ok(m.(delta := Some(if Loaded(c, loads, m.id) then total else m.delta.value)))
  {
    assert WellFormedRow(m.id, t[m.id]);
    ReopenedLookup(c, t, loads, KeyOf(m));
    ReopenedLookup(c, t, loads, Key(GAUGE, m.id));
    CounterRow(t, m.id);
  }

  lemma CounterInTable(s: seq<Metric>, id: string, t: Db.Table)
    requires Keepable(s) && CounterOf(s, id).Some?
    ensures var r := Db.FlushTable(t, s, Db.NoFault);
            r.1 && TableReading(r.0, Key(COUNTER, id)) == Some(Total(CounterOf(s, id).value))
  {
    KeepableCommits(s, t);
    FlushedOwnReading(t, s, IndexOf(s, Key(COUNTER, id)));
  }

  /** What the first accepted write of a counter puts into its row: the total that was admitted. */
  lemma FirstWrite(c: Config, w: World, m: Metric, io: Io)
    requires c.writeThrough && w.disk.Table? && SqlWorks(io) && Keepable(w.mem) && Fits(w.mem, m)
    requires m.mtype == COUNTER && Admit(c, w.mem, m).Ok? && Admit(c, w.mem, m).value.delta.Some?
    ensures var (after, outcome) := UpsertCall(c, w, m, io);
            && outcome == Done && after.disk.Table?
            && TableReading(after.disk.rows, KeyOf(m)) == Some(Total(Admit(c, w.mem, m).value.delta.value))
  {
    var a := Admit(c, w.mem, m).value;
    AdmittedShape(c, w.mem, m);
    WriteThroughCall(c, w, m, io);
    FittingKeepsNoClash(w.mem, a);
    UpsertedReads(w.mem, a, a.id);
    CounterInTable(Upserted(w.mem, a), a.id, w.disk.rows);
  }

  lemma FirstDeltaWritten(c: Config, t: Db.Table, loads: Loads, m: Metric, io: Io)
    requires c.writeThrough && WellFormedTable(t) && Feasible(Table(t), loads) && SqlWorks(io)
    requires Verified(c, m) && m.mtype == COUNTER && m.delta.Some?
    requires m.id != "" && m.id in t && t[m.id].mtype == Some(COUNTER)
    ensures var (after, outcome) := UpsertCall(c, World(Reopened(c, Table(t), loads), Table(t)), m, io);
            var total := Wrap64(m.delta.value + t[m.id].delta.value);
            && outcome == Done && after.disk.Table?
            && TableReading(after.disk.rows, KeyOf(m))
               == Some(Total(if Loaded(c, loads, m.id) then total else m.delta.value))
  {
    FirstAdmission(c, t, loads, m);
    ReopenedKeepable(c, t, loads);
    FirstWrite(c, World(Reopened(c, Table(t), loads), Table(t)), m, io);
  }

  lemma OnlyZeroAddsNothing(d: Int64, total: Int64)
    ensures Wrap64(d + total) == d <==> total == 0
  {
  }

  /**
    * A restore that fails is only logged. The first delta a client sends for a counter is then written through:
    * the row ends with the right total exactly when the start got to see it, or when it was 0.
    */
  lemma TotalSurvivesRestoreIff(c: Config, t: Db.Table, loads: Loads, m: Metric, io: Io)
    requires c.writeThrough && WellFormedTable(t) && Feasible(Table(t), loads) && SqlWorks(io)
    requires Verified(c, m) && m.mtype == COUNTER && m.delta.Some?
    requires m.id != "" && m.id in t && t[m.id].mtype == Some(COUNTER)
    ensures var (after, outcome) := UpsertCall(c, World(Reopened(c, Table(t), loads), Table(t)), m, io);
            var total := Wrap64(m.delta.value + t[m.id].delta.value);
            && outcome == Done && after.disk.Table?
            && (TableReading(after.disk.rows, KeyOf(m)) == Some(Total(total))
                <==> Loaded(c, loads, m.id) || t[m.id].delta == Some(0))
            && (!Loaded(c, loads, m.id) ==> TableReading(after.disk.rows, KeyOf(m)) == Some(Total(m.delta.value)))
  {
    FirstDeltaWritten(c, t, loads, m, io);
    OnlyZeroAddsNothing(m.delta.value, t[m.id].delta.value);
  }

  /** The smallest loss: the row of x holds 5, the query fails, and one more delta leaves 1 in the row. */
  lemma FailedRestoreLosesTotal(c: Config, io: Io, file: Fs.ReadFault)
    requires c.writeThrough && c.signKey == "" && SqlWorks(io)
    ensures var t := map["x" := Db.Row(Some(COUNTER), Some(5), None)];
            var loads, m := Loads(Db.QueryFails, Db.QueryFails, file), Metric("x", COUNTER, Some(1), None, "");
            var (after, outcome) := UpsertCall(c, World(Reopened(c, Table(t), loads), Table(t)), m, io);
            outcome == Done && after.disk.Table? && TableReading(after.disk.rows, KeyOf(m)) == Some(Total(1))
  {
    var t := map["x" := Db.Row(Some(COUNTER), Some(5), None)];
    Db.AsciiIsText("x");
    assert Db.Width("x") <= 1;
    var loads, m := Loads(Db.QueryFails, Db.QueryFails, file), Metric("x", COUNTER, Some(1), None, "");
    TotalSurvivesRestoreIff(c, t, loads, m, io);
  }

  // ---- The guard is exact ----

  lemma FitsIsNeeded(s: seq<Metric>, a: Metric)
    requires Keepable(s)
    ensures UniqueKeys(Upserted(s, a))
    ensures AllStorable(Upserted(s, a)) && NoClash(Upserted(s, a)) <==> Fits(s, a)
  {
    UpsertRefinesMap(s, a);
    var t := Upserted(s, a);
    if Fits(s, a) {
      FittingKeepsNoClash(s, a);
    }
    var own, other := KeyOf(a), Key(OtherType(a.mtype), a.id);
    assert Lookup(t, own).Some?;
    if AllStorable(t) && NoClash(t) {
      OneTypePerId(t, own, other);
      if Known(s, other) {
        KnownStays(s, a, other);
      }
    }
  }

  lemma OneTypePerId(s: seq<Metric>, k: Key, q: Key)
    requires NoClash(s) && Known(s, k) && q.id == k.id && q.mtype != k.mtype
    ensures !Known(s, q)
  {
  }

  /** Memory that no flush can commit has a metric that cannot be stored, so the table does not agree with it. */
  lemma UncommittedDisagrees(s: seq<Metric>, t: Db.Table)
    requires UniqueKeys(s) && WellFormedTable(t) && Db.FlushRows(t, s).None?
    ensures !AllStorable(s) && !Agree(s, t)
  {
    FlushSucceedsIff(t, s);
    var i :| 0 <= i < |s| && WellTyped(s[i]) && Db.StoredName(s[i].id).None?;
    Db.StoredNameFits(s[i].id);
    assert !Storable(s[i]);
    AgreePointwise(s, t);
    if Agree(s, t) {
      AgreementNeeds(s, t, t);
    }
  }

  /** An accepted Upsert with working SQL ends in agreement exactly when the metric fits the store. */
  lemma UpsertAgreesIff(c: Config, w: World, m: Metric, io: Io)
    requires c.writeThrough && Tracked(w) && SqlWorks(io) && UpsertCall(c, w, m, io).1.Done?
    ensures InAgreement(UpsertCall(c, w, m, io).0) <==> Fits(w.mem, m)
  {
    var a := Admit(c, w.mem, m).value;
    var s, t := Upserted(w.mem, a), w.disk.rows;
    AdmittedShape(c, w.mem, m);
    FitsIsNeeded(w.mem, a);
    TracedStays(w.mem, a, t);
    TracedNotStale(s, t);
    WriteThroughCall(c, w, m, io);
    if Db.FlushRows(t, s).Some? {
      CommittedFlushAgreesIff(t, s);
    } else {
      UncommittedDisagrees(s, t);
    }
  }

  /** The smallest clash: a counter and a gauge called x. Only the one flushed last survives a restart. */
  lemma ClashLosesTheCounter(c: Config, io: Io)
    requires c.writeThrough && c.signKey == "" && SqlWorks(io)
    ensures var w := Run(c, World([], Table(map[])), [Upsert(Metric("x", COUNTER, Some(1), None, ""), io),
                                                      Upsert(Metric("x", GAUGE, None, Some(0), ""), io)]);
            Tracked(World([], Table(map[]))) && !InAgreement(w)
  {
    var counter, gauge := Metric("x", COUNTER, Some(1), None, ""), Metric("x", GAUGE, None, Some(0), "");
    var start := World([], Table(map[]));
    Db.AsciiIsText("x");
    assert Db.Width("") == 0 && Db.Width("x") <= 1;
    var middle := Step(c, start, Upsert(counter, io)).0;
    StepTracked(c, start, Upsert(counter, io));
    assert middle.mem == [counter];
    assert IndexOf([counter], Key(COUNTER, "x")) == 0;
    UpsertAgreesIff(c, middle, gauge, io);
    var ops := [Upsert(counter, io), Upsert(gauge, io)];
    assert ops[1..] == [Upsert(gauge, io)];
    assert Run(c, start, ops) == Run(c, middle, [Upsert(gauge, io)]);
    assert Run(c, middle, [Upsert(gauge, io)]) == Step(c, middle, Upsert(gauge, io)).0;
  }
}
