/**
  * internal/storage/dbstore: metrics in PostgreSQL, in a table whose primary key is the name alone.
  * The table is a map from name to row; a transaction is a private copy of it that Commit publishes.
  */
module DbStore {
  import opened Basics
  import opened Metrics
  import opened MemStore
  import opened Text

  datatype Row = Row(mtype: Option<string>, delta: Option<Int64>, value: Option<Float64>)

  type Table = map<string, Row>

  // ---- The CHARACTER VARYING(50) column ----

  const NAME_WIDTH := 50

  predicate IsContinuationByte(c: char) { 0x80 <= c as int < 0xC0 }

  /** Characters, not bytes: continuation bytes of UTF-8 do not count. */
  function Width(s: string): (w: nat)
    ensures w <= |s|
  {
    if s == [] then 0 else Width(s[..|s| - 1]) + if IsContinuationByte(s[|s| - 1]) then 0 else 1
  }

  /** The number of characters of valid UTF-8, counted rune by rune. */
  function Runes(s: string): nat
    requires ValidUtf8(s)
    decreases |s|
  {
    if s == [] then 0 else 1 + Runes(s[RuneLen(s)..])
  }

  lemma {:induction false} WidthSplits(a: string, b: string)
    ensures Width(a + b) == Width(a) + Width(b)
    decreases |b|
  {
    if b == [] {
      assert a + b == a;
    } else {
      assert (a + b)[..|a + b| - 1] == a + b[..|b| - 1];
      WidthSplits(a, b[..|b| - 1]);
    }
  }

  lemma RuneIsOneWide(s: string)
    requires s != [] && RuneLen(s) > 0
    ensures Width(s[..RuneLen(s)]) == 1
  {
    var r := s[..RuneLen(s)];
    WidthSplits(r[..1], r[1..]);
    assert r == r[..1] + r[1..];
    assert r[..1] == [r[0]] && [r[0]][..0] == [] && Width(r[..1]) == 1;
    ContinuationsAreNarrow(r[1..]);
  }

  lemma {:induction false} ContinuationsAreNarrow(s: string)
    requires forall i :: 0 <= i < |s| ==> IsContinuationByte(s[i])
    ensures Width(s) == 0
  {
    if s != [] {
      ContinuationsAreNarrow(s[..|s| - 1]);
    } else {
    }
  }

  /** The database counts characters, not bytes. */
  lemma {:induction false} WidthIsRunes(s: string)
    requires ValidUtf8(s)
    ensures Width(s) == Runes(s)
    decreases |s|
  {
    if s == [] {
    } else {
      var n := RuneLen(s);
      RuneIsOneWide(s);
      WidthIsRunes(s[n..]);
      WidthSplits(s[..n], s[n..]);
      assert s == s[..n] + s[n..];
    }
  }

  predicate AllSpaces(s: string) { forall i :: 0 <= i < |s| ==> s[i] == ' ' }

  /** Text the database takes as a parameter: it refuses a zero byte and invalid UTF-8. */
  predicate PgText(s: string) { ValidUtf8(s) && '\0' !in s }

  function Trimmed(id: string, excess: nat): Option<string>
    requires excess <= |id|
  {
    if AllSpaces(id[|id| - excess..]) then Some(id[..|id| - excess]) else None
  }

  /** What an INSERT stores for a name: excess spaces are cut off, any other excess is an error. */
  function StoredName(id: string): Option<string> {
    var excess := Width(id) - NAME_WIDTH;
    if !PgText(id) then None
    else if excess <= 0 then Some(id)
    else Trimmed(id, excess)
  }

  predicate FitsColumn(id: string) { PgText(id) && Width(id) <= NAME_WIDTH }

  lemma {:induction false} WidthWithoutSpaces(s: string, n: nat)
    requires n <= |s| && AllSpaces(s[|s| - n..])
    ensures Width(s[..|s| - n]) == Width(s) - n
  {
    if n == 0 {
      assert s[..|s|] == s;
    } else {
      var init := s[..|s| - 1];
      assert s[|s| - 1] == s[|s| - n..][n - 1];
      assert init[|init| - (n - 1)..] == s[|s| - n..][..n - 1];
      WidthWithoutSpaces(init, n - 1);
      assert init[..|init| - (n - 1)] == s[..|s| - n];
    }
  }

  /** A rune never reaches into trailing spaces. */
  lemma RuneBeforeSpaces(s: string, n: nat)
    requires n < |s| && AllSpaces(s[|s| - n..]) && RuneLen(s) > 0
    ensures RuneLen(s) <= |s| - n && RuneLen(s[..|s| - n]) == RuneLen(s)
  {
    assert forall j :: |s| - n <= j < |s| ==> s[j] == s[|s| - n..][j - (|s| - n)];
  }

  lemma {:induction false} ValidWithoutSpaces(s: string, n: nat)
    requires ValidUtf8(s) && n <= |s| && AllSpaces(s[|s| - n..])
    ensures ValidUtf8(s[..|s| - n])
    decreases |s|
  {
    if n < |s| {
      var r, kept := RuneLen(s), s[..|s| - n];
      RuneBeforeSpaces(s, n);
      assert s[r..][|s[r..]| - n..] == s[|s| - n..];
      ValidWithoutSpaces(s[r..], n);
      assert s[r..][..|s[r..]| - n] == kept[r..];
    }
  }

  lemma StoredNameFits(id: string)
    ensures StoredName(id) == Some(id) <==> FitsColumn(id)
    ensures StoredName(id).Some? ==> FitsColumn(StoredName(id).value)
    ensures FitsColumn(id) <==> ValidUtf8(id) && '\0' !in id && Runes(id) <= 50
  {
    if ValidUtf8(id) {
      WidthIsRunes(id);
    }
    var excess := Width(id) - NAME_WIDTH;
    if PgText(id) && excess > 0 && AllSpaces(id[|id| - excess..]) {
      WidthWithoutSpaces(id, excess);
      ValidWithoutSpaces(id, excess);
    }
  }

  lemma LongNameIsTrimmed(id: string, excess: nat)
    requires PgText(id) && excess > 0 && Width(id) == 50 + excess
    ensures excess <= |id| && StoredName(id) == Trimmed(id, excess)
  {
  }

  /** A longer name is stored without its excess when that is spaces only, and refused otherwise. */
  lemma StoredNameCuts(id: string)
    requires PgText(id) && Runes(id) > 50
    ensures var n := |id| - (Runes(id) - 50);
            0 <= n <= |id| && StoredName(id) == if AllSpaces(id[n..]) then Some(id[..n]) else None
  {
    WidthIsRunes(id);
    LongNameIsTrimmed(id, Runes(id) - 50);
  }

  lemma {:induction false} AsciiIsText(s: string)
    requires forall i :: 0 <= i < |s| ==> 0 < s[i] as int < 0x80
    ensures PgText(s)
  {
    if s == [] {
    } else {
      AsciiIsText(s[1..]);
    }
  }

  // ---- Flush ----

  function OldRow(t: Table, n: string): Row { if n in t then t[n] else Row(None, None, None) }

  /** One upsert statement. On a name conflict the column of the other type keeps its old content. */
  function Exec(t: Table, m: Metric): Option<Table>
    requires WellTyped(m)
  {
    match StoredName(m.id)
    case None => None
    case Some(n) =>
      var row := OldRow(t, n);
      Some(t[n := if m.mtype == GAUGE then row.(mtype := Some(GAUGE), value := m.value)
                  else row.(mtype := Some(COUNTER), delta := m.delta)])
  }

  /** All statements of one transaction; metrics without a value or of unknown type are skipped. */
  function FlushRows(t: Table, s: seq<Metric>): Option<Table> {
    if s == [] then Some(t)
    else
      var last := s[|s| - 1];
      match FlushRows(t, s[..|s| - 1])
      case None => None
      case Some(before) => if WellTyped(last) then Exec(before, last) else Some(before)
  }

  /** What the environment does to one Flush. A failed COMMIT may or may not have been applied. */
  datatype SqlFault = NoFault | BeginFails | PrepareFails | ExecFails(at: nat) | CommitFails(applied: bool)

  predicate ExecInjected(s: seq<Metric>, fault: SqlFault) {
    fault.ExecFails? && fault.at < |s| && WellTyped(s[fault.at])
  }

  function FlushTable(t: Table, s: seq<Metric>, fault: SqlFault): (Table, bool) {
    if fault.BeginFails? || fault.PrepareFails? || ExecInjected(s, fault) then (t, false)
    else
      match FlushRows(t, s)
      case None => (t, false)
      case Some(after) =>
        if fault.CommitFails? then (if fault.applied then after else t, false) else (after, true)
  }

  /** The DELETE has the name and the type as parameters. */
  predicate DeleteRefused(k: Key) { !PgText(k.id) || !PgText(k.mtype) }

  lemma KnownTypesAreText(k: Key)
    requires k.mtype == GAUGE || k.mtype == COUNTER
    ensures DeleteRefused(k) <==> !PgText(k.id)
  {
    assert |k.mtype| == 5 || |k.mtype| == 7;
    assert forall i :: 0 <= i < |k.mtype| ==> 'a' <= k.mtype[i] <= 'z';
    AsciiIsText(k.mtype);
  }

  function DeleteRow(t: Table, k: Key): Table {
    if k.id in t && t[k.id].mtype == Some(k.mtype) then map n | n in t && n != k.id :: t[n] else t
  }

  // ---- Restore ----

  /** The metric a row turns into, if CreateMetric accepts it: its type's column only, and no hash. */
  function RowMetric(n: string, row: Row): Option<Metric> {
    match Bare(if row.mtype.Some? then row.mtype.value else "", n)
    case Err(_) => None
    case Ok(m) =>
      Some(if m.mtype == GAUGE then m.(value := row.value)
           else if m.mtype == COUNTER then m.(delta := row.delta)
           else m)
  }

  /** Rows arrive in an order the query does not fix. */
  function RestoredRows(s: seq<Metric>, t: Table, order: seq<string>): seq<Metric>
    requires forall i :: 0 <= i < |order| ==> order[i] in t
    decreases |order|
  {
    if order == [] then s
    else
      var m := RowMetric(order[0], t[order[0]]);
      RestoredRows(if m.Some? then Upserted(s, m.value) else s, t, order[1..])
  }

  ghost predicate Distinct(order: seq<string>) { forall i, j :: 0 <= i < j < |order| ==> order[i] != order[j] }

  ghost predicate Enumerates(order: seq<string>, t: Table) {
    && Distinct(order)
    && (forall i :: 0 <= i < |order| ==> order[i] in t)
    && (forall n :: n in t ==> n in order)
  }

  /** What a query for all rows brings: nothing at all, or rows in some order, up to where the cursor broke. */
  datatype Fetch = QueryFails | Rows(order: seq<string>, complete: bool)

  function Delivered(f: Fetch): seq<string> { match f case QueryFails => [] case Rows(order, _) => order }

  predicate FromTable(order: seq<string>, t: Table) { forall i :: 0 <= i < |order| ==> order[i] in t }

  ghost predicate Feasible(f: Fetch, t: Table) {
    && Distinct(Delivered(f))
    && FromTable(Delivered(f), t)
    && (f.Rows? && f.complete ==> Enumerates(f.order, t))
  }

  // ---- The store ----

  class Storage {
    const memory: MemStore.Storage
    var table: Table

    /** dbstore.New: an empty memory store filled from the table; restore errors are only logged. */
    constructor (image: Table, fetch: Fetch)
      requires FromTable(Delivered(fetch), image)
      ensures memory.Valid() && fresh(memory) && fresh(memory.metrics) && table == image
      ensures memory.Contents() == RestoredRows([], image, Delivered(fetch))
    {
      memory := new MemStore.Storage();
      table := image;
      new;
      var _ := Restore(fetch);
    }

    method Flush(fault: SqlFault) returns (ok: bool)
      requires memory.Valid()
      modifies `table
      ensures (table, ok) == FlushTable(old(table), memory.Contents(), fault)
    {
      if fault.BeginFails? || fault.PrepareFails? {
        return false;
      }
      var tx := table;
      var slice := memory.GetBatch();
      ghost var all := memory.Contents();
      var i := 0;
      while i < slice.len
        invariant 0 <= i <= slice.len && slice == Slice(memory.metrics, memory.count)
        invariant all == memory.Contents() && FlushRows(table, all[..i]) == Some(tx)
        invariant ExecInjected(all, fault) ==> fault.at >= i
      {
        var m := slice.data[i];
        assert all[..i + 1][..i] == all[..i] && all[..i + 1][i] == m;
        if WellTyped(m) {
          if fault == ExecFails(i) {
            return false;
          }
          var next := Exec(tx, m);
          if next.None? {
            FlushRowsFails(table, all, i);
            return false;
          }
          tx := next.value;
        }
        i := i + 1;
      }
      assert all[..i] == all;
      if fault.CommitFails? {
        if fault.applied {
          table := tx;
        }
        return false;
      }
      table := tx;
      return true;
    }

    /** Rows delivered before the cursor broke stay in memory. */
    method Restore(fetch: Fetch) returns (ok: bool)
      requires memory.Valid() && FromTable(Delivered(fetch), table)
      modifies memory, memory.metrics
      ensures memory.Valid() && (memory.metrics == old(memory.metrics) || fresh(memory.metrics))
      ensures memory.Contents() == RestoredRows(old(memory.Contents()), table, Delivered(fetch))
      ensures ok <==> fetch.Rows? && fetch.complete
    {
      if fetch.QueryFails? {
        return false;
      }
      var rows := fetch.order;
      var i := 0;
      while i < |rows|
        invariant 0 <= i <= |rows|
        invariant memory.Valid() && (memory.metrics == old(memory.metrics) || fresh(memory.metrics))
        invariant RestoredRows(old(memory.Contents()), table, rows)
                  == RestoredRows(memory.Contents(), table, rows[i..])
      {
        var m := RowMetric(rows[i], table[rows[i]]);
        if m.Some? {
          memory.Upsert(m.value);
        }
        assert rows[i..][1..] == rows[i + 1..];
        i := i + 1;
      }
      ok := fetch.complete;
    }

    /** The row goes only when its type matches; memory has already lost the metric when SQL fails. */
    method Delete(k: Key, execFails: bool) returns (r: Result<(), Error>)
      requires memory.Valid()
      modifies `table, memory, memory.metrics
      ensures memory.Valid() && memory.metrics == old(memory.metrics)
      ensures memory.Contents() == Deleted(old(memory.Contents()), k)
      ensures !Known(old(memory.Contents()), k) ==> r == Err(NotFound) && table == old(table)
      ensures Known(old(memory.Contents()), k) ==>
                if execFails || DeleteRefused(k) then r == Err(External) && table == old(table)
                else r == Ok(()) && table == DeleteRow(old(table), k)
    {
      r := memory.Delete(k);
      if r.Err? {
        return;
      }
      if execFails || DeleteRefused(k) {
        return Err(External);
      }
      table := DeleteRow(table, k);
    }
  }

  /** A statement that fails makes the whole transaction fail, whatever follows it. */
  lemma {:induction false} FlushRowsFails(t: Table, s: seq<Metric>, i: nat)
    requires i < |s| && FlushRows(t, s[..i + 1]).None?
    ensures FlushRows(t, s).None?
  {
    if i + 1 == |s| {
      assert s[..i + 1] == s;
    } else {
      var init := s[..|s| - 1];
      assert init[..i + 1] == s[..i + 1];
      FlushRowsFails(t, init, i);
    }
  }
}
