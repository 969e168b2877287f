/** One id the name column refuses, and what it does to every later flush. */
module RefusedIds {
  import opened Basics
  import opened Metrics
  import opened MemStore
  import opened Server
  import opened Runs
  import opened DbTable
  import opened Agreement
  import Db = DbStore

  lemma RefusedFlush(s: seq<Metric>, k: Key, t: Db.Table, fault: Db.SqlFault)
    requires AllWellTyped(s) && Known(s, k) && Db.StoredName(k.id).None?
    ensures Db.FlushTable(t, s, fault) == (t, false)
  {
    var i := IndexOf(s, k);
    assert WellTyped(s[i]) && s[i].id == k.id;
    FlushSucceedsIff(t, s);
  }

  /** What the DELETE statement of a call takes out of the table, if the call gets to it. */
  function RowsAfter(s: seq<Metric>, t: Db.Table, op: Op): Db.Table {
    if op.Delete? && Known(s, op.key) && !op.io.deleteFails && !Db.DeleteRefused(op.key) then Db.DeleteRow(t, op.key)
    else t
  }

  /** The table after the deletes of a run and nothing else of it. */
  function OnlyDeletes(c: Config, w: World, t: Db.Table, ops: seq<Op>): Db.Table
    decreases |ops|
  {
    if ops == [] then t else OnlyDeletes(c, Step(c, w, ops[0]).0, RowsAfter(w.mem, t, ops[0]), ops[1..])
  }

  lemma {:induction false} OnlyDeletesShrinks(c: Config, w: World, t: Db.Table, ops: seq<Op>)
    ensures var after := OnlyDeletes(c, w, t, ops); forall n :: n in after ==> n in t && after[n] == t[n]
    decreases |ops|
  {
    if ops == [] {
    } else {
      OnlyDeletesShrinks(c, Step(c, w, ops[0]).0, RowsAfter(w.mem, t, ops[0]), ops[1..]);
    }
  }

  lemma DeleteRefusedStep(c: Config, w: World, q: Key, io: Io, k: Key)
    requires Sound(w.mem) && w.disk.Table? && q != k && Known(w.mem, k) && Db.StoredName(k.id).None?
    ensures var after := DeleteCall(c, w, q, io).0;
            Known(after.mem, k) && after.disk == Table(RowsAfter(w.mem, w.disk.rows, Delete(q, io)))
  {
    DeleteLookup(w.mem, q, k);
    assert Lookup(w.mem, k).Some?;
    DeletedSound(w.mem, q);
    if Known(w.mem, q) {
      DeleteCallCases(c, w, q, io);
    }
    RefusedFlush(Deleted(w.mem, q), k, Db.DeleteRow(w.disk.rows, q), io.sql);
  }

  lemma StepRefused(c: Config, w: World, op: Op, k: Key)
    requires Sound(w.mem) && OpAdmissible(c, op) && w.disk.Table? && !(op.Delete? && op.key == k)
    requires Known(w.mem, k) && Db.StoredName(k.id).None?
    ensures Known(Step(c, w, op).0.mem, k) && Step(c, w, op).0.disk == Table(RowsAfter(w.mem, w.disk.rows, op))
  {
    var after := Step(c, w, op).0;
    StepSound(c, w, op);
    match op
    case Upsert(m, io) =>
      if Admit(c, w.mem, m).Ok? {
        KnownStays(w.mem, Admit(c, w.mem, m).value, k);
        RefusedFlush(after.mem, k, w.disk.rows, io.sql);
      }
    case UpsertBatch(ms, io) =>
      BatchKeepsKnown(c, w.mem, ms, k);
      RefusedFlush(after.mem, k, w.disk.rows, io.sql);
    case Delete(q, io) => DeleteRefusedStep(c, w, q, io, k);
    case GetBatch => SignedAllKeeps(c, w.mem);
    case Tick(io) => RefusedFlush(w.mem, k, w.disk.rows, io.sql);
  }

  ghost predicate Keeps(ops: seq<Op>, k: Key) { forall i :: 0 <= i < |ops| ==> !(ops[i].Delete? && ops[i].key == k) }

  lemma {:induction false} RunRefused(c: Config, w: World, ops: seq<Op>, k: Key)
    requires Sound(w.mem) && OpsAdmissible(c, ops) && w.disk.Table? && Keeps(ops, k)
    requires Known(w.mem, k) && Db.StoredName(k.id).None?
    ensures Known(Run(c, w, ops).mem, k) && Run(c, w, ops).disk == Table(OnlyDeletes(c, w, w.disk.rows, ops))
    decreases |ops|
  {
    if ops == [] {
    } else {
      StepSound(c, w, ops[0]);
      StepRefused(c, w, ops[0], k);
      RunRefused(c, Step(c, w, ops[0]).0, ops[1..], k);
    }
  }

  /**
    * One accepted metric whose id the column refuses: the call returns nil, and until this very key is deleted
    * no flush reaches the table, whatever usable metrics are written. Other deletes take out their own rows.
    */
  lemma RefusedIdFreezesTable(c: Config, w: World, m: Metric, io: Io, ops: seq<Op>)
    requires Sound(w.mem) && w.disk.Table? && Verified(c, m) && WellTyped(m) && Db.StoredName(m.id).None?
    requires OpsAdmissible(c, ops) && Keeps(ops, KeyOf(m))
    ensures var (after, outcome) := UpsertCall(c, w, m, io);
            && outcome == Done && after.disk == w.disk && Known(Run(c, after, ops).mem, KeyOf(m))
            && Run(c, after, ops).disk == Table(OnlyDeletes(c, after, w.disk.rows, ops))
  {
    AdmitSound(c, w.mem, m);
    var a := Admit(c, w.mem, m).value;
    UpsertRefinesMap(w.mem, a);
    assert Lookup(Upserted(w.mem, a), KeyOf(m)).Some?;
    RefusedFlush(Upserted(w.mem, a), KeyOf(m), w.disk.rows, io.sql);
    RunRefused(c, UpsertCall(c, w, m, io).0, ops, KeyOf(m));
  }

  /** Deleting a key lets flushes through again exactly when no other stored metric has a refused id. */
  lemma DeleteThawsIff(s: seq<Metric>, k: Key, t: Db.Table)
    requires Sound(s)
    ensures Db.FlushRows(t, Deleted(s, k)).Some?
            <==> forall i :: 0 <= i < |s| && KeyOf(s[i]) != k ==> Db.StoredName(s[i].id).Some?
  {
    var rest := Deleted(s, k);
    FlushSucceedsIff(t, rest);
    DeletedSound(s, k);
    forall i | 0 <= i < |s| && KeyOf(s[i]) != k ensures s[i] in rest {
      OnlyMatch(s, i);
      DeleteLookup(s, k, KeyOf(s[i]));
    }
    forall j | 0 <= j < |rest| ensures rest[j] in s && KeyOf(rest[j]) != k {
      OnlyMatch(rest, j);
      DeleteLookup(s, k, KeyOf(rest[j]));
    }
  }

  /** Such an id need not be long: one zero byte, which JSON can write, is enough. */
  lemma ZeroByteFreezesTable(c: Config, w: World, io: Io, ops: seq<Op>)
    requires Sound(w.mem) && w.disk.Table? && c.signKey == ""
    requires OpsAdmissible(c, ops) && Keeps(ops, Key(COUNTER, "\0"))
    ensures var (after, outcome) := UpsertCall(c, w, Metric("\0", COUNTER, Some(1), None, ""), io);
            outcome == Done && Run(c, after, ops).disk == Table(OnlyDeletes(c, after, w.disk.rows, ops))
  {
    RefusedIdFreezesTable(c, w, Metric("\0", COUNTER, Some(1), None, ""), io, ops);
  }
}
