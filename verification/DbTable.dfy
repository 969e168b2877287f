/** What a committed flush puts into the table, what any restore gets out of it, and when the two agree. */
module DbTable {
  import opened Basics
  import opened Metrics
  import opened MemStore
  import opened DbStore

  const BOTH := {GAUGE, COUNTER}

  predicate Writes(m: Metric, n: string, types: set<string>) {
    WellTyped(m) && m.mtype in types && StoredName(m.id) == Some(n)
  }

  /** The last metric in slice order, of one of the given types, whose statement targets row n. */
  function LastWriter(s: seq<Metric>, n: string, types: set<string>): (i: int)
    ensures -1 <= i < |s|
    ensures i >= 0 ==> Writes(s[i], n, types)
    ensures forall j :: i < j < |s| ==> !Writes(s[j], n, types)
  {
    if s == [] then -1
    else if Writes(s[|s| - 1], n, types) then |s| - 1
    else
      var i := LastWriter(s[..|s| - 1], n, types);
      assert forall j :: 0 <= j < |s| - 1 ==> s[j] == s[..|s| - 1][j];
      i
  }

  lemma LastWriterSnoc(s: seq<Metric>, n: string)
    requires s != []
    ensures forall types :: LastWriter(s, n, types)
                            == if Writes(s[|s| - 1], n, types) then |s| - 1 else LastWriter(s[..|s| - 1], n, types)
  {
  }

  /** The row the last writers of each type leave, over what was there before. */
  function WrittenRow(was: Row, s: seq<Metric>, n: string): Row {
    var last, c, g := LastWriter(s, n, BOTH), LastWriter(s, n, {COUNTER}), LastWriter(s, n, {GAUGE});
    Row(if last >= 0 then Some(s[last].mtype) else was.mtype,
        if c >= 0 then s[c].delta else was.delta,
        if g >= 0 then s[g].value else was.value)
  }

  lemma WrittenRowSnoc(was: Row, s: seq<Metric>, n: string)
    requires s != []
    ensures var m, row := s[|s| - 1], WrittenRow(was, s[..|s| - 1], n);
            WrittenRow(was, s, n) == if !Writes(m, n, BOTH) then row
                                     else if m.mtype == GAUGE then row.(mtype := Some(GAUGE), value := m.value)
                                     else row.(mtype := Some(COUNTER), delta := m.delta)
  {
  }

  /**
    * A row nobody wrote is unchanged. A written row has the type of its last writer, and each value column
    * holds what the last writer of that column's type put there, or else its old content.
    */
  lemma {:induction false} FlushedRow(t: Table, s: seq<Metric>, n: string)
    requires FlushRows(t, s).Some?
    ensures var after, last := FlushRows(t, s).value, LastWriter(s, n, BOTH);
            && (n in after <==> n in t || last >= 0)
            && (last < 0 && n in t ==> after[n] == t[n])
            && (last >= 0 ==> after[n] == WrittenRow(OldRow(t, n), s, n))
  {
    if s == [] {
    } else {
      FlushedRow(t, s[..|s| - 1], n);
      LastWriterSnoc(s, n);
      WrittenRowSnoc(OldRow(t, n), s, n);
      UnwrittenRow(OldRow(t, n), s[..|s| - 1], n);
    }
  }

  lemma UnwrittenRow(was: Row, s: seq<Metric>, n: string)
    ensures LastWriter(s, n, BOTH) < 0 ==> WrittenRow(was, s, n) == was
  {
  }

  /** Any failed statement, and any failure before COMMIT, leaves every row as it was. */
  lemma FailedFlushChangesNothing(t: Table, s: seq<Metric>, fault: SqlFault)
    ensures FlushRows(t, s).None? ==> FlushTable(t, s, fault) == (t, false)
    ensures !FlushTable(t, s, fault).1 && fault != CommitFails(true) ==> FlushTable(t, s, fault).0 == t
    ensures FlushTable(t, s, fault).1 ==> FlushRows(t, s) == Some(FlushTable(t, s, fault).0)
  {
  }

  lemma {:induction false} FlushSucceedsIff(t: Table, s: seq<Metric>)
    ensures FlushRows(t, s).Some? <==> forall i :: 0 <= i < |s| && WellTyped(s[i]) ==> StoredName(s[i].id).Some?
  {
    if s == [] {
    } else {
      FlushSucceedsIff(t, s[..|s| - 1]);
      assert forall i :: 0 <= i < |s| - 1 ==> s[i] == s[..|s| - 1][i];
    }
  }

  /** A metric the database makes the flush fail on: it is flushed at all, and its id cannot be stored. */
  predicate Unflushable(m: Metric) { WellTyped(m) && StoredName(m.id).None? }

  /**
    * A flush reports success exactly when its environment does not fail and no metric is unflushable. Metrics
    * without a value are skipped and fail nothing; a statement can only fail for a metric that is not skipped.
    */
  lemma FlushCommitsIff(t: Table, s: seq<Metric>, fault: SqlFault)
    ensures FlushTable(t, s, fault).1
            <==> (forall i :: 0 <= i < |s| ==> !Unflushable(s[i]))
                 && (fault.NoFault? || (fault.ExecFails? && (fault.at >= |s| || !WellTyped(s[fault.at]))))
  {
    FlushSucceedsIff(t, s);
  }

  lemma FlushTwice(t: Table, s: seq<Metric>)
    requires FlushRows(t, s).Some?
    ensures FlushRows(FlushRows(t, s).value, s) == FlushRows(t, s)
  {
    var once := FlushRows(t, s).value;
    FlushSucceedsIff(t, s);
    FlushSucceedsIff(once, s);
    var twice := FlushRows(once, s).value;
    forall n ensures (n in once <==> n in twice) && (n in once ==> once[n] == twice[n]) {
      FlushedRow(t, s, n);
      FlushedRow(once, s, n);
    }
    assert once == twice;
  }

  // ---- Rows that restore to usable metrics ----

  /** The column selected by the row's type is not null, and the name came through the column. */
  predicate WellFormedRow(n: string, row: Row) {
    && FitsColumn(n)
    && ((row.mtype == Some(GAUGE) && row.value.Some?) || (row.mtype == Some(COUNTER) && row.delta.Some?))
  }

  ghost predicate WellFormedTable(t: Table) { forall n :: n in t ==> WellFormedRow(n, t[n]) }

  /** Whatever the store holds and whatever SQL does, a flush keeps the table well formed. */
  lemma FlushKeepsTable(t: Table, s: seq<Metric>, fault: SqlFault)
    requires WellFormedTable(t)
    ensures WellFormedTable(FlushTable(t, s, fault).0)
  {
    if FlushRows(t, s).Some? {
      var after := FlushRows(t, s).value;
      forall n | n in after ensures WellFormedRow(n, after[n]) {
        FlushedRow(t, s, n);
        var last := LastWriter(s, n, BOTH);
        if last >= 0 {
          StoredNameFits(s[last].id);
        }
      }
    }
  }

  // ---- Restore ----

  /** What the table says about a key, without reading it row by row. */
  function TableMetric(t: Table, k: Key): Option<Metric> {
    if k.id !in t then None
    else
      var m := RowMetric(k.id, t[k.id]);
      if m.Some? && KeyOf(m.value) == k then m else None
  }

  lemma {:induction false} RestoredUnique(s: seq<Metric>, t: Table, order: seq<string>)
    requires UniqueKeys(s)
    requires forall i :: 0 <= i < |order| ==> order[i] in t
    ensures UniqueKeys(RestoredRows(s, t, order))
    decreases |order|
  {
    if order == [] {
    } else {
      var m := RowMetric(order[0], t[order[0]]);
      if m.Some? {
        UpsertRefinesMap(s, m.value);
      }
      RestoredUnique(if m.Some? then Upserted(s, m.value) else s, t, order[1..]);
    }
  }

  /** The effect of the first delivered row on one key. */
  lemma RowLookup(s: seq<Metric>, n: string, row: Row, k: Key)
    requires UniqueKeys(s)
    ensures var m := RowMetric(n, row);
            var next := if m.Some? then Upserted(s, m.value) else s;
            && UniqueKeys(next)
            && Lookup(next, k) == if m.None? || KeyOf(m.value) != k then Lookup(s, k)
                                  else if Known(s, k) then Some(Merge(Lookup(s, k).value, m.value))
                                  else m
  {
    var m := RowMetric(n, row);
    if m.Some? {
      UpsertRefinesMap(s, m.value);
    }
  }

  lemma SplitFirst(order: seq<string>, n: string)
    requires Distinct(order) && order != []
    ensures n in order <==> n == order[0] || n in order[1..]
    ensures order[0] !in order[1..]
  {
  }

  lemma {:induction false} RestoredLookup(s: seq<Metric>, t: Table, order: seq<string>, k: Key)
    requires UniqueKeys(s) && Distinct(order)
    requires forall i :: 0 <= i < |order| ==> order[i] in t
    ensures Lookup(RestoredRows(s, t, order), k)
            == if k.id !in order || TableMetric(t, k).None? then Lookup(s, k)
               else if Known(s, k) then Some(Merge(Lookup(s, k).value, TableMetric(t, k).value))
               else TableMetric(t, k)
    decreases |order|
  {
    if order == [] {
    } else {
      var m := RowMetric(order[0], t[order[0]]);
      var next := if m.Some? then Upserted(s, m.value) else s;
      RowLookup(s, order[0], t[order[0]], k);
      RestoredLookup(next, t, order[1..], k);
      SplitFirst(order, k.id);
      if k.id == order[0] {
        assert TableMetric(t, k) == if m.Some? && KeyOf(m.value) == k then m else None;
      } else {
        assert m.Some? ==> KeyOf(m.value) != k;
        assert Known(next, k) == Known(s, k);
      }
    }
  }

  /** Every enumeration of the rows restores an empty store to the same map. */
  lemma RestoreIsOrderFree(t: Table, order: seq<string>, k: Key)
    requires Enumerates(order, t)
    ensures UniqueKeys(RestoredRows([], t, order))
    ensures Lookup(RestoredRows([], t, order), k) == TableMetric(t, k)
  {
    RestoredUnique([], t, order);
    RestoredLookup([], t, order, k);
  }

  /**
    * The restored metric of a key, field by field, in every row order: the value column for a gauge, the delta
    * column for a counter, never a stale column of the other type, never a hash. A row of an unknown type keeps
    * its key and has no value; without a name or a type nothing is restored.
    */
  lemma RestoredMetric(t: Table, order: seq<string>, k: Key)
    requires Enumerates(order, t)
    ensures Lookup(RestoredRows([], t, order), k)
            == if k.id == "" || k.mtype == "" || k.id !in t || t[k.id].mtype != Some(k.mtype) then None
               else if k.mtype == GAUGE then Some(Metric(k.id, GAUGE, None, t[k.id].value, ""))
               else if k.mtype == COUNTER then Some(Metric(k.id, COUNTER, t[k.id].delta, None, ""))
               else Some(Metric(k.id, k.mtype, None, None, ""))
  {
    RestoreIsOrderFree(t, order, k);
  }

  lemma {:induction false} RestoredRowsStored(s: seq<Metric>, t: Table, order: seq<string>)
    requires UniqueKeys(s) && forall i :: 0 <= i < |order| ==> order[i] in t
    requires forall n :: n in order && RowMetric(n, t[n]).Some? ==> RowMetric(n, t[n]).value in s
    ensures RestoredRows(s, t, order) == s
    decreases |order|
  {
    if order == [] {
    } else {
      assert order == [order[0]] + order[1..];
      var m := RowMetric(order[0], t[order[0]]);
      if m.Some? {
        var i :| 0 <= i < |s| && s[i] == m.value;
        UpsertStoredIsIdentity(s, i);
      }
      RestoredRowsStored(s, t, order[1..]);
    }
  }

  /** A second restore, in any other row order, changes not even the positions: startup restores twice. */
  lemma RestoreTwice(t: Table, first: seq<string>, second: seq<string>)
    requires Enumerates(first, t) && Enumerates(second, t)
    ensures RestoredRows(RestoredRows([], t, first), t, second) == RestoredRows([], t, first)
  {
    var s := RestoredRows([], t, first);
    RestoredUnique([], t, first);
    forall n | n in second && RowMetric(n, t[n]).Some? ensures RowMetric(n, t[n]).value in s {
      var m := RowMetric(n, t[n]).value;
      RestoreIsOrderFree(t, first, KeyOf(m));
      assert Lookup(s, KeyOf(m)) == Some(m);
    }
    RestoredRowsStored(s, t, second);
  }

  lemma {:induction false} EnumerationExists(t: Table)
    ensures exists order :: Enumerates(order, t)
    decreases |t|
  {
    if t == map[] {
      assert Enumerates([], t);
    } else {
      var n :| n in t;
      var rest := map r | r in t && r != n :: t[r];
      assert rest.Keys == t.Keys - {n};
      assert |rest| == |rest.Keys| && |t| == |t.Keys|;
      EnumerationExists(rest);
      var tail :| Enumerates(tail, rest);
      var order := [n] + tail;
      assert forall r :: r in t ==> r == n || r in rest;
      assert Enumerates(order, t);
    }
  }

  // ---- Agreement of live memory with the table ----

  function Read(s: seq<Metric>, k: Key): Option<Reading> {
    match Lookup(s, k) case None => None case Some(m) => Some(ReadingOf(m))
  }

  /** A crash now would lose nothing: restoring in any row order gives every key its live value. */
  ghost predicate Agree(s: seq<Metric>, t: Table) {
    forall order, k :: Enumerates(order, t) ==> Read(s, k) == Read(RestoredRows([], t, order), k)
  }

  function TableReading(t: Table, k: Key): Option<Reading> {
    match TableMetric(t, k) case None => None case Some(m) => Some(ReadingOf(m))
  }

  lemma AgreePointwise(s: seq<Metric>, t: Table)
    ensures Agree(s, t) <==> forall k :: Read(s, k) == TableReading(t, k)
  {
    if Agree(s, t) {
      EnumerationExists(t);
      var order :| Enumerates(order, t);
      forall k ensures Read(s, k) == TableReading(t, k) {
        RestoreIsOrderFree(t, order, k);
      }
    }
    if forall k :: Read(s, k) == TableReading(t, k) {
      forall order, k | Enumerates(order, t) ensures Read(s, k) == Read(RestoredRows([], t, order), k) {
        RestoreIsOrderFree(t, order, k);
      }
    }
  }

  /** Delete's own statement takes back exactly one key: a row of the other type under the same name stays. */
  lemma DeletedRowReads(t: Table, k: Key, q: Key)
    requires WellFormedTable(t)
    ensures WellFormedTable(DeleteRow(t, k))
    ensures TableReading(DeleteRow(t, k), q) == if q == k then None else TableReading(t, q)
  {
  }

  /** A metric the table can give back: it has a value, and an id that is not empty and fits the column. */
  predicate Storable(m: Metric) { WellTyped(m) && m.id != "" && FitsColumn(m.id) }

  ghost predicate AllStorable(s: seq<Metric>) { forall i :: 0 <= i < |s| ==> Storable(s[i]) }

  /** No id is used under two types: the table has one row for both. */
  ghost predicate NoClash(s: seq<Metric>) {
    forall i, j :: 0 <= i < |s| && 0 <= j < |s| && s[i].id == s[j].id ==> s[i].mtype == s[j].mtype
  }

  ghost predicate HoldsId(s: seq<Metric>, n: string) { exists i :: 0 <= i < |s| && s[i].id == n }

  /** No row is left over from a metric that memory no longer has. */
  ghost predicate NoStaleRow(s: seq<Metric>, t: Table) { forall n :: n in t && n != "" ==> HoldsId(s, n) }

  lemma FlushedOwnReading(t: Table, s: seq<Metric>, i: nat)
    requires UniqueKeys(s) && AllStorable(s) && NoClash(s) && FlushRows(t, s).Some? && i < |s|
    ensures var after := FlushRows(t, s).value;
            s[i].id in after && after[s[i].id].mtype == Some(s[i].mtype)
            && TableReading(after, KeyOf(s[i])) == Some(ReadingOf(s[i]))
  {
  }

  lemma NoWriter(s: seq<Metric>, n: string)
    requires AllStorable(s) && !HoldsId(s, n)
    ensures LastWriter(s, n, BOTH) < 0
  {
  }

  lemma FlushedReading(t: Table, s: seq<Metric>, k: Key)
    requires UniqueKeys(s) && AllStorable(s) && NoClash(s) && NoStaleRow(s, t) && FlushRows(t, s).Some?
    ensures Read(s, k) == TableReading(FlushRows(t, s).value, k)
  {
    if HoldsId(s, k.id) {
      var i :| 0 <= i < |s| && s[i].id == k.id;
      FlushedOwnReading(t, s, i);
      OnlyMatch(s, i);
      if s[i].mtype != k.mtype {
        assert !Known(s, k);
      }
    } else {
      assert !Known(s, k);
      NoWriter(s, k.id);
      FlushedRow(t, s, k.id);
    }
  }

  /** The table reads back a usable value for a key only if its name is non-empty and fits. */
  lemma TableReadingShape(t: Table, k: Key)
    requires WellFormedTable(t) && TableReading(t, k).Some?
    ensures TableReading(t, k).value != Nothing && k.id != "" && FitsColumn(k.id) && t[k.id].mtype == Some(k.mtype)
  {
  }

  lemma RowReads(t: Table, n: string)
    requires WellFormedTable(t) && n in t && n != ""
    ensures TableReading(t, Key(t[n].mtype.value, n)).Some?
  {
  }

  lemma AgreementNeeds(s: seq<Metric>, before: Table, after: Table)
    requires UniqueKeys(s) && WellFormedTable(after) && before.Keys <= after.Keys
    requires forall k :: Read(s, k) == TableReading(after, k)
    ensures AllStorable(s) && NoClash(s) && NoStaleRow(s, before)
  {
    forall i | 0 <= i < |s| ensures Storable(s[i]) && s[i].id in after && after[s[i].id].mtype == Some(s[i].mtype) {
      OnlyMatch(s, i);
      assert Read(s, KeyOf(s[i])) == TableReading(after, KeyOf(s[i]));
      TableReadingShape(after, KeyOf(s[i]));
    }
    forall n | n in before && n != "" ensures HoldsId(s, n) {
      assert n in after;
      RowReads(after, n);
      var k := Key(after[n].mtype.value, n);
      assert Read(s, k) == TableReading(after, k);
      assert s[IndexOf(s, k)].id == n;
    }
  }

  /**
    * After a committed flush, memory and table agree exactly when every metric is storable, no id is used
    * under two types, and the table had no row of a forgotten metric.
    */
  lemma CommittedFlushAgreesIff(t: Table, s: seq<Metric>)
    requires UniqueKeys(s) && WellFormedTable(t) && FlushRows(t, s).Some?
    ensures Agree(s, FlushRows(t, s).value) <==> AllStorable(s) && NoClash(s) && NoStaleRow(s, t)
  {
    var after := FlushRows(t, s).value;
    AgreePointwise(s, after);
    FlushKeepsTable(t, s, NoFault);
    forall n | n in t ensures n in after {
      FlushedRow(t, s, n);
    }
    if AllStorable(s) && NoClash(s) && NoStaleRow(s, t) {
      forall k ensures Read(s, k) == TableReading(after, k) {
        FlushedReading(t, s, k);
      }
    }
    if forall k :: Read(s, k) == TableReading(after, k) {
      AgreementNeeds(s, t, after);
    }
  }
}
