/** Whole lives of a server: calls, faults, crashes in the middle of a flush, and restarts, on any backend. */
module Lives {
  import opened Basics
  import opened Metrics
  import opened MemStore
  import opened Server
  import opened Runs
  import opened Codec
  import Text
  import Db = DbStore
  import Rows = DbTable
  import Fs = FileStore

  // ---- Images that restore to usable metrics ----

  /** Nothing, or a cut of the text of some sound store. */
  ghost predicate SoundFile(content: Option<string>, floats: FloatText) {
    || content.None?
    || content == Some("")
    || exists s, n :: Sound(s) && AllFinite(s) && 0 <= n <= |Marshal(s, floats).value|
                      && content == Some(Marshal(s, floats).value[..n])
  }

  ghost predicate SoundDisk(c: Config, disk: Disk) {
    match disk
    case NoDisk => true
    case File(content) => SoundFile(content, c.env.floats)
    case Table(rows) => Rows.WellFormedTable(rows)
  }

  ghost predicate SoundWorld(c: Config, w: World) { Sound(w.mem) && SoundDisk(c, w.disk) }

  lemma CrashKeepsSound(c: Config, w: World, disk: Disk)
    requires SoundWorld(c, w) && CrashDisk(c, w, disk)
    ensures SoundDisk(c, disk)
  {
    match w.disk
    case NoDisk =>
    case Table(rows) =>
      Rows.FlushKeepsTable(rows, w.mem, Db.NoFault);
      if k :| Known(w.mem, k) && disk.rows == Db.DeleteRow(rows, k) {
        Rows.DeletedRowReads(rows, k, k);
      }
    case File(before) =>
      if disk.content != before && disk.content != Some("") {
        var n :| 0 <= n <= |Marshal(w.mem, c.env.floats).value|
                 && disk.content == Some(Marshal(w.mem, c.env.floats).value[..n]);
      }
  }

  /** A flush leaves an image a crash could have left, whatever it reports. */
  lemma FlushIsCrashDisk(c: Config, w: World, io: Io)
    ensures CrashDisk(c, w, FlushDisk(w.disk, w.mem, c.env.floats, io).0)
  {
    match w.disk
    case NoDisk =>
    case Table(rows) =>
    case File(before) => Fs.FlushIsCrashImage(before, w.mem, c.env.floats, io.file);
  }

  /** A delete that dies between its DELETE and the flush leaves such an image too. */
  lemma DeleteIsCrashDisk(c: Config, w: World, k: Key)
    requires w.disk.Table? && Known(w.mem, k)
    ensures CrashDisk(c, w, Table(Db.DeleteRow(w.disk.rows, k)))
  {
  }

  /** Any rows a table has, in any order, may be all that a query delivers. */
  lemma PartIsFeasible(t: Db.Table, order: seq<string>, file: Fs.ReadFault)
    requires Db.Distinct(order) && Db.FromTable(order, t)
    ensures Feasible(Table(t), Loads(Db.QueryFails, Db.Rows(order, false), file))
    ensures Feasible(Table(t), Loads(Db.Rows(order, false), Db.QueryFails, file))
  {
  }

  lemma WrittenSound(c: Config, w: World, io: Io)
    requires SoundWorld(c, w)
    ensures SoundWorld(c, Written(c, w, io)) && SoundWorld(c, w.(disk := FlushDisk(w.disk, w.mem, c.env.floats, io).0))
  {
    FlushIsCrashDisk(c, w, io);
    CrashKeepsSound(c, w, FlushDisk(w.disk, w.mem, c.env.floats, io).0);
  }

  lemma UpsertKeepsSound(c: Config, w: World, m: Metric, io: Io)
    requires SoundWorld(c, w) && Admissible(c, m)
    ensures SoundWorld(c, UpsertCall(c, w, m, io).0)
  {
    AdmitSound(c, w.mem, m);
    if Admit(c, w.mem, m).Ok? {
      WrittenSound(c, w.(mem := Upserted(w.mem, Admit(c, w.mem, m).value)), io);
    }
  }

  lemma BatchKeepsSound(c: Config, w: World, ms: seq<Metric>, io: Io)
    requires SoundWorld(c, w) && AllAdmissible(c, ms)
    ensures SoundWorld(c, BatchCall(c, w, ms, io).0)
  {
    BatchSound(c, w.mem, ms);
    WrittenSound(c, w.(mem := Batch(c, w.mem, ms).mem), io);
  }

  lemma DeleteKeepsSound(c: Config, w: World, k: Key, io: Io)
    requires SoundWorld(c, w)
    ensures SoundWorld(c, DeleteCall(c, w, k, io).0)
  {
    DeletedSound(w.mem, k);
    var disk := if w.disk.Table? then Table(Db.DeleteRow(w.disk.rows, k)) else w.disk;
    WrittenSound(c, World(Deleted(w.mem, k), disk), io);
  }

  lemma StepKeepsSound(c: Config, w: World, op: Op)
    requires SoundWorld(c, w) && OpAdmissible(c, op)
    ensures SoundWorld(c, Step(c, w, op).0) && !Step(c, w, op).1.Panicked?
  {
    StepSound(c, w, op);
    match op
    case Upsert(m, io) => UpsertKeepsSound(c, w, m, io);
    case UpsertBatch(ms, io) => BatchKeepsSound(c, w, ms, io);
    case Delete(k, io) => DeleteKeepsSound(c, w, k, io);
    case GetBatch =>
    case Tick(io) => WrittenSound(c, w, io);
  }

  // ---- Restored stores are sound ----

  lemma {:induction false} RestoredRowsSound(s: seq<Metric>, t: Db.Table, order: seq<string>)
    requires Sound(s) && Rows.WellFormedTable(t) && forall i :: 0 <= i < |order| ==> order[i] in t
    ensures Sound(Db.RestoredRows(s, t, order))
    decreases |order|
  {
    if order == [] {
    } else {
      var m := Db.RowMetric(order[0], t[order[0]]);
      assert Rows.WellFormedRow(order[0], t[order[0]]);
      if m.Some? {
        UpsertRefinesMap(s, m.value);
      }
      RestoredRowsSound(if m.Some? then Upserted(s, m.value) else s, t, order[1..]);
    }
  }

  lemma {:induction false} UpsertedAllSound(s: seq<Metric>, ms: seq<Metric>)
    requires Sound(s) && AllWellTyped(ms)
    ensures Sound(UpsertedAll(s, ms))
    decreases |ms|
  {
    if ms == [] {
    } else {
      UpsertRefinesMap(s, ms[0]);
      UpsertedAllSound(Upserted(s, ms[0]), ms[1..]);
    }
  }

  lemma SaneKeepsReading(m: Metric)
    requires WellTyped(m)
    ensures ReadingOf(SaneMetric(m)) == ReadingOf(m)
  {
    TypeNamesAreSane(m.mtype);
  }

  lemma TypeNamesAreSane(mtype: string)
    requires mtype == GAUGE || mtype == COUNTER
    ensures Text.Sanitize(mtype) == mtype
  {
    assert forall i :: 0 <= i < |mtype| ==> 'a' <= mtype[i] <= 'z';
    AsciiIsSane(mtype);
  }

  lemma SaneWellTyped(ms: seq<Metric>)
    requires AllWellTyped(ms)
    ensures AllWellTyped(SaneMetrics(ms))
  {
    forall i | 0 <= i < |ms| ensures WellTyped(SaneMetrics(ms)[i]) {
      SaneKeepsReading(ms[i]);
    }
  }

  lemma RestoredFileSound(content: Option<string>, floats: FloatText)
    requires JsonFloats(floats) && SoundFile(content, floats)
    ensures Sound(Fs.RestoredFile([], content, floats).0)
  {
    if content.Some? && content != Some("") {
      var s, n :| Sound(s) && AllFinite(s) && 0 <= n <= |Marshal(s, floats).value|
                  && content == Some(Marshal(s, floats).value[..n]);
      Fs.RestoreOfCut(s, floats, n, []);
      SaneWellTyped(s);
      UpsertedAllSound([], SaneMetrics(s));
    }
  }

  lemma ReadableSound(content: Option<string>, fault: Fs.ReadFault, floats: FloatText)
    requires SoundFile(content, floats)
    ensures SoundFile(Fs.Readable(content, fault), floats)
  {
    var part := Fs.Readable(content, fault);
    if part != content && part.Some? && content != Some("") {
      var s, n :| Sound(s) && AllFinite(s) && 0 <= n <= |Marshal(s, floats).value|
                  && content == Some(Marshal(s, floats).value[..n]);
      var text := Marshal(s, floats).value;
      assert text[..n][..fault.bytes] == text[..fault.bytes];
      assert part == Some(text[..fault.bytes]);
    }
  }

  /** A start on any image a sound server could have left, also one whose queries or reads fail part way. */
  lemma StartSound(c: Config, disk: Disk, loads: Loads)
    requires JsonFloats(c.env.floats) && SoundDisk(c, disk) && Feasible(disk, loads)
    ensures SoundWorld(c, World(Reopened(c, disk, loads), disk))
  {
    match disk
    case NoDisk =>
    case File(content) =>
      ReadableSound(content, loads.file, c.env.floats);
      RestoredFileSound(Fs.Readable(content, loads.file), c.env.floats);
    case Table(rows) =>
      var first := Db.Delivered(loads.first);
      RestoredRowsSound([], rows, first);
      RestoredRowsSound(Db.RestoredRows([], rows, first), rows, Db.Delivered(loads.second));
  }

  lemma EventKeepsSound(c: Config, w: World, e: Event)
    requires JsonFloats(c.env.floats) && SoundWorld(c, w) && Possible(c, w, e)
    requires e.Call? ==> OpAdmissible(c, e.op)
    ensures SoundWorld(c, After(c, w, e))
  {
    match e
    case Call(op) => StepKeepsSound(c, w, op);
    case Restart(disk, loads) =>
      CrashKeepsSound(c, w, disk);
      StartSound(c, disk, loads);
  }

  ghost predicate LifeAdmissible(c: Config, life: seq<Event>) {
    forall i :: 0 <= i < |life| && life[i].Call? ==> OpAdmissible(c, life[i].op)
  }

  /** No call of any life panics: not after failed SQL, a crash in a flush, or a restore that broke off. */
  lemma {:induction false} LifeNeverPanics(c: Config, w: World, life: seq<Event>, i: nat)
    requires JsonFloats(c.env.floats) && SoundWorld(c, w) && PossibleLife(c, w, life) && LifeAdmissible(c, life)
    requires i <= |life|
    ensures SoundWorld(c, Worlds(c, w, life)[i])
    ensures i < |life| && life[i].Call? ==> !Step(c, Worlds(c, w, life)[i], life[i].op).1.Panicked?
    decreases |life|
  {
    if i == 0 {
      if life != [] && life[0].Call? {
        StepKeepsSound(c, w, life[0].op);
      }
    } else {
      var next := After(c, w, life[0]);
      EventKeepsSound(c, w, life[0]);
      LifeNeverPanics(c, next, life[1..], i - 1);
      assert Worlds(c, w, life)[i] == Worlds(c, next, life[1..])[i - 1];
    }
  }

  // ---- A file only ever restores to a store that was once live ----

  ghost predicate WasLive(history: seq<World>, s: seq<Metric>) { exists i :: 0 <= i < |history| && history[i].mem == s }

  /** The first content, or a cut of the text of a store that was live at some point of the history. */
  ghost predicate FromHistory(first: Option<string>, content: Option<string>, history: seq<World>, floats: FloatText) {
    || content == first
    || content == Some("")
    || exists s, n :: WasLive(history, s) && AllFinite(s) && 0 <= n <= |Marshal(s, floats).value|
                      && content == Some(Marshal(s, floats).value[..n])
  }

  lemma HistoryGrows(first: Option<string>, content: Option<string>, history: seq<World>, w: World, floats: FloatText)
    requires FromHistory(first, content, history, floats)
    ensures FromHistory(first, content, history + [w], floats)
  {
    if content != first && content != Some("") {
      var s, n :| WasLive(history, s) && AllFinite(s) && 0 <= n <= |Marshal(s, floats).value|
                  && content == Some(Marshal(s, floats).value[..n]);
      var i :| 0 <= i < |history| && history[i].mem == s;
      assert (history + [w])[i].mem == s;
    }
  }

  /** A file after any event is the file before it, or a cut of the text of a store live now. */
  lemma EventFile(c: Config, w: World, e: Event)
    requires w.disk.File? && Possible(c, w, e)
    ensures var after := After(c, w, e);
            after.disk.File? && (Fs.CrashImage(w.disk.content, w.mem, c.env.floats, after.disk.content)
                                 || Fs.CrashImage(w.disk.content, after.mem, c.env.floats, after.disk.content))
  {
    match e
    case Restart(_, _) =>
    case Call(op) =>
      var after := Step(c, w, op).0;
      match op
      case Upsert(_, io) => FlushIsCrashDisk(c, after.(disk := w.disk), io);
      case UpsertBatch(_, io) => FlushIsCrashDisk(c, after.(disk := w.disk), io);
      case Delete(_, io) => FlushIsCrashDisk(c, after.(disk := w.disk), io);
      case GetBatch =>
      case Tick(io) => FlushIsCrashDisk(c, w, io);
  }

  lemma CrashFromHistory(first: Option<string>, before: Option<string>, s: seq<Metric>, after: Option<string>,
                         history: seq<World>, floats: FloatText)
    requires FromHistory(first, before, history, floats) && WasLive(history, s)
    requires Fs.CrashImage(before, s, floats, after)
    ensures FromHistory(first, after, history, floats)
  {
  }

  lemma EventFromHistory(c: Config, first: Option<string>, past: seq<World>, w: World, e: Event)
    requires w.disk.File? && Possible(c, w, e)
    requires past != [] && past[|past| - 1] == w && FromHistory(first, w.disk.content, past, c.env.floats)
    ensures var next := After(c, w, e);
            next.disk.File? && FromHistory(first, next.disk.content, past + [next], c.env.floats)
  {
    var next := After(c, w, e);
    var longer := past + [next];
    EventFile(c, w, e);
    HistoryGrows(first, w.disk.content, past, next, c.env.floats);
    assert longer[|past| - 1].mem == w.mem && longer[|past|].mem == next.mem;
    if Fs.CrashImage(w.disk.content, w.mem, c.env.floats, next.disk.content) {
      CrashFromHistory(first, w.disk.content, w.mem, next.disk.content, longer, c.env.floats);
    } else {
      CrashFromHistory(first, w.disk.content, next.mem, next.disk.content, longer, c.env.floats);
    }
  }

  lemma PastMoves(past: seq<World>, w: World, rest: seq<World>, i: nat)
    requires 0 < i <= |rest|
    ensures ([w] + rest)[i] == rest[i - 1]
    ensures (past + [rest[0]]) + rest[1..i] == past + ([w] + rest)[1..i + 1]
  {
  }

  lemma {:induction false} FileFromHistory(c: Config, first: Option<string>, past: seq<World>, w: World,
                                           life: seq<Event>, i: nat)
    requires w.disk.File? && PossibleLife(c, w, life) && i <= |life|
    requires past != [] && past[|past| - 1] == w && FromHistory(first, w.disk.content, past, c.env.floats)
    ensures var ws := Worlds(c, w, life);
            ws[i].disk.File? && FromHistory(first, ws[i].disk.content, past + ws[1..i + 1], c.env.floats)
    decreases |life|
  {
    var ws := Worlds(c, w, life);
    if i == 0 {
      assert past + ws[1..1] == past;
    } else {
      var next := After(c, w, life[0]);
      EventFromHistory(c, first, past, w, life[0]);
      FileFromHistory(c, first, past + [next], next, life[1..], i - 1);
      PastMoves(past, w, Worlds(c, next, life[1..]), i);
    }
  }

  lemma PrefixIsPast(ws: seq<World>, i: nat)
    requires i < |ws|
    ensures [ws[0]] + ws[1..i + 1] == ws[..i + 1]
  {
  }

  /** What a restart could take from a file with a cut of the text of some store, when reading may break off. */
  lemma RestoreOfReadable(s: seq<Metric>, floats: FloatText, n: nat, fault: Fs.ReadFault)
    requires JsonFloats(floats) && AllFinite(s) && n <= |Marshal(s, floats).value|
    ensures var restored := Fs.RestoredFile([], Fs.Readable(Some(Marshal(s, floats).value[..n]), fault), floats).0;
            restored == [] || restored == UpsertedAll([], SaneMetrics(s))
  {
    var text := Marshal(s, floats).value;
    var part := Fs.Readable(Some(text[..n]), fault);
    if part.Some? {
      var k := |part.value|;
      assert part.value == text[..k];
      Fs.RestoreOfCut(s, floats, k, []);
    }
  }

  lemma SnapshotIsLive(history: seq<World>, content: Option<string>, fault: Fs.ReadFault, floats: FloatText)
    requires JsonFloats(floats)
    requires exists s, n :: WasLive(history, s) && AllFinite(s) && 0 <= n <= |Marshal(s, floats).value|
                            && content == Some(Marshal(s, floats).value[..n])
    ensures var restored := Fs.RestoredFile([], Fs.Readable(content, fault), floats).0;
            restored == [] || exists j :: 0 <= j < |history| && restored == UpsertedAll([], SaneMetrics(history[j].mem))
  {
    var s, n :| WasLive(history, s) && AllFinite(s) && 0 <= n <= |Marshal(s, floats).value|
                && content == Some(Marshal(s, floats).value[..n]);
    var j :| 0 <= j < |history| && history[j].mem == s;
    RestoreOfReadable(s, floats, n, fault);
    assert history[j].mem == s;
  }

  lemma HistoryRestores(first: Option<string>, content: Option<string>, history: seq<World>, fault: Fs.ReadFault,
                        floats: FloatText)
    requires JsonFloats(floats) && FromHistory(first, content, history, floats)
    ensures var restored := Fs.RestoredFile([], Fs.Readable(content, fault), floats).0;
            || restored == []
            || restored == Fs.RestoredFile([], Fs.Readable(first, fault), floats).0
            || exists j :: 0 <= j < |history| && restored == UpsertedAll([], SaneMetrics(history[j].mem))
  {
    if content == Some("") {
      assert Fs.RestoredFile([], Some(""), floats).0 == [];
    } else if content != first {
      SnapshotIsLive(history, content, fault, floats);
    }
  }

  /**
    * All or nothing over a whole life, begun on any file: at any moment, what the file would restore, even when
    * reading it breaks off, is nothing, what the first file gives, or one complete store that was live earlier,
    * strings made valid. Faults and crashes included.
    */
  lemma {:induction false} FileRestoresASnapshot(c: Config, w: World, life: seq<Event>, i: nat, fault: Fs.ReadFault)
    requires JsonFloats(c.env.floats) && w.disk.File? && PossibleLife(c, w, life) && i <= |life|
    ensures var ws := Worlds(c, w, life);
            ws[i].disk.File? &&
            var restored := Fs.RestoredFile([], Fs.Readable(ws[i].disk.content, fault), c.env.floats).0;
            || restored == []
            || restored == Fs.RestoredFile([], Fs.Readable(w.disk.content, fault), c.env.floats).0
            || exists j :: 0 <= j <= i && restored == UpsertedAll([], SaneMetrics(ws[j].mem))
  {
    var ws, floats := Worlds(c, w, life), c.env.floats;
    FileFromHistory(c, w.disk.content, [w], w, life, i);
    PrefixIsPast(ws, i);
    HistoryRestores(w.disk.content, ws[i].disk.content, ws[..i + 1], fault, floats);
  }

  /**
    * File write-through: a write that returns nil with working I/O leaves a file that restores to the live
    * store itself, order and hashes included, exactly when that store is restorable.
    */
  lemma FileWriteThroughIff(c: Config, w: World, op: Op)
    requires JsonFloats(c.env.floats) && c.writeThrough && w.disk.File? && UniqueKeys(w.mem)
    requires match op case Upsert(_, io) => io.file.NoFault? case UpsertBatch(_, io) => io.file.NoFault?
                      case Delete(_, io) => io.file.NoFault? case _ => false
    requires Step(c, w, op).1.Done?
    ensures var after := Step(c, w, op).0;
            after.disk.File? && (Fs.RestoredFile([], after.disk.content, c.env.floats).0 == after.mem
                                 <==> Fs.Restorable(after.mem, c.env.floats))
  {
    StepUnique(c, w, op);
    Fs.FileRoundTripIff(w.disk.content, Step(c, w, op).0.mem, c.env.floats);
  }

  /** The start reads the whole file: told to restore, and no read error before its end. */
  predicate ReadsWhole(c: Config, loads: Loads, text: string) {
    c.restore && (loads.file.NoReadFault? || (loads.file.BreaksAfter? && loads.file.bytes >= |text|))
  }

  lemma ReopenedOnFile(c: Config, s: seq<Metric>, loads: Loads)
    requires JsonFloats(c.env.floats) && UniqueKeys(s) && Fs.Restorable(s, c.env.floats)
    ensures var text := Marshal(s, c.env.floats).value;
            Reopened(c, File(Some(text)), loads) == if ReadsWhole(c, loads, text) then s else []
  {
    var text := Marshal(s, c.env.floats).value;
    var part := Fs.Readable(Some(text), loads.file);
    if part.Some? {
      var n := |part.value|;
      assert text[..|text|] == text && part.value == text[..n];
      Fs.RestoreOfCut(s, c.env.floats, n, []);
      MarshalOneLine(s, c.env.floats);
      SaneMetricsIdentityIff(s);
      Fs.UpsertedAllIsIdentityIff(s);
    }
  }

  /** No metric of s but the one of the key k is missing. */
  ghost predicate OthersKept(s: seq<Metric>, t: seq<Metric>, k: Key) {
    forall i :: 0 <= i < |s| && KeyOf(s[i]) != k ==> s[i] in t
  }

  lemma UpsertKeepsOthers(s: seq<Metric>, m: Metric)
    ensures OthersKept(s, Upserted(s, m), KeyOf(m))
  {
    var t := Upserted(s, m);
    forall i | 0 <= i < |s| && KeyOf(s[i]) != KeyOf(m) ensures s[i] in t {
      assert t[i] == s[i];
    }
  }

  /**
    * A restore that fails is only logged, and the first write replaces the whole file. The file then has every
    * other metric it had exactly when the start read it to its end, or when it held no other; and a restart on
    * it gives just what the file has.
    */
  lemma FileSurvivesLoadIff(c: Config, s: seq<Metric>, loads: Loads, m: Metric, io: Io)
    requires JsonFloats(c.env.floats) && c.writeThrough && UniqueKeys(s) && Fs.Restorable(s, c.env.floats)
    requires var file := File(Marshal(s, c.env.floats));
             var call := UpsertCall(c, World(Reopened(c, file, loads), file), m, io);
             io.file.NoFault? && call.1.Done? && Fs.Restorable(call.0.mem, c.env.floats)
    ensures var file := File(Marshal(s, c.env.floats));
            var after := UpsertCall(c, World(Reopened(c, file, loads), file), m, io).0;
            var whole := ReadsWhole(c, loads, Marshal(s, c.env.floats).value);
            && after.disk.File? && Fs.RestoredFile([], after.disk.content, c.env.floats).0 == after.mem
            && (!whole ==> after.mem == [m])
            && (OthersKept(s, after.mem, KeyOf(m)) <==> whole || forall i :: 0 <= i < |s| ==> KeyOf(s[i]) == KeyOf(m))
  {
    var file := File(Marshal(s, c.env.floats));
    var start := World(Reopened(c, file, loads), file);
    ReopenedOnFile(c, s, loads);
    FileWriteThroughIff(c, start, Upsert(m, io));
    if ReadsWhole(c, loads, Marshal(s, c.env.floats).value) {
      UpsertKeepsOthers(s, Admit(c, s, m).value);
    } else {
      assert Admit(c, [], m) == Ok(m) && Upserted([], m) == [m];
    }
  }

  lemma LongIdOverflows(s: seq<Metric>, m: Metric, file: Option<string>, floats: FloatText)
    requires JsonFloats(floats) && AllFinite(s) && Finite(m) && |m.id| >= 65536
    ensures var after := Fs.FlushFile(file, s + [m], floats, Fs.NoFault).0;
            Fs.RestoredFile([], after, floats) == ([], true)
  {
    assert (s + [m])[|s|] == m;
    MarshalHoldsIds(s + [m], |s|, floats);
    Fs.LargeStoreIsLost(file, s + [m], floats);
  }

  /**
    * One accepted metric with an id of 65536 bytes, and the file is lost: the write returns nil, memory has every
    * metric, and the next restart has none.
    */
  lemma LongIdLosesTheFile(c: Config, w: World, m: Metric, io: Io, loads: Loads)
    requires JsonFloats(c.env.floats) && c.writeThrough && c.restore && w.disk.File? && io.file.NoFault?
    requires AllFinite(w.mem) && Finite(m) && |m.id| >= 65536
    requires Verified(c, m) && !Known(w.mem, KeyOf(m)) && loads.file.NoReadFault?
    ensures var (after, outcome) := UpsertCall(c, w, m, io);
            && outcome == Done && after.mem == w.mem + [m]
            && Possible(c, after, Restart(after.disk, loads))
            && After(c, after, Restart(after.disk, loads)).mem == []
  {
    var s := w.mem + [m];
    assert Admit(c, w.mem, m) == Ok(m) && Upserted(w.mem, m) == s;
    LongIdOverflows(w.mem, m, w.disk.content, c.env.floats);
  }

  /** A gauge that is no finite number empties the file: the write returns nil and the file has no byte left. */
  lemma NaNEmptiesTheFile(c: Config, w: World, m: Metric, io: Io)
    requires JsonFloats(c.env.floats) && c.writeThrough && w.disk.File? && io.file.NoFault?
    requires UniqueKeys(w.mem) && UpsertCall(c, w, m, io).1.Done?
    ensures var after := UpsertCall(c, w, m, io).0; after.disk == File(Some("")) <==> !AllFinite(after.mem)
    ensures m.mtype == GAUGE && m.value.Some? && !IsFinite(m.value.value) ==> !AllFinite(UpsertCall(c, w, m, io).0.mem)
  {
    var s := Upserted(w.mem, Admit(c, w.mem, m).value);
    Fs.FlushEmptiesIff(w.disk.content, s, c.env.floats);
    UpsertRefinesMap(w.mem, Admit(c, w.mem, m).value);
    assert Lookup(s, KeyOf(m)).Some?;
  }

  /**
    * With a positive interval the tick writes: one that meets no I/O fault leaves a file that restores to live
    * memory iff that is restorable, and succeeds iff every value is finite.
    */
  lemma FileTickIff(c: Config, w: World, io: Io)
    requires JsonFloats(c.env.floats) && !c.writeThrough && w.disk.File? && io.file.NoFault? && UniqueKeys(w.mem)
    ensures var (after, outcome) := Step(c, w, Tick(io));
            && after.mem == w.mem && after.disk.File?
            && (Fs.RestoredFile([], after.disk.content, c.env.floats).0 == w.mem
                <==> Fs.Restorable(w.mem, c.env.floats))
            && (outcome == Done <==> AllFinite(w.mem)) && (outcome != Done ==> outcome == Failed(External))
  {
    Fs.FileRoundTripIff(w.disk.content, w.mem, c.env.floats);
    Fs.FlushEmptiesIff(w.disk.content, w.mem, c.env.floats);
  }

  /** With a positive interval only the tick writes: no run of other calls changes the file. */
  lemma {:induction false} OnlyTicksWrite(c: Config, w: World, ops: seq<Op>)
    requires !c.writeThrough && w.disk.File? && forall i :: 0 <= i < |ops| ==> !ops[i].Tick?
    ensures Run(c, w, ops).disk == w.disk
    decreases |ops|
  {
    if ops == [] {
    } else {
      OnlyTicksWrite(c, Step(c, w, ops[0]).0, ops[1..]);
    }
  }

  /**
    * A restart right after a flush that met no I/O fault: with the restore flag and a readable file the server
    * has exactly the store it had iff that store is restorable; without the flag it starts empty.
    */
  lemma FileRestartIff(c: Config, w: World, io: Io, loads: Loads)
    requires JsonFloats(c.env.floats) && UniqueKeys(w.mem) && w.disk.File? && io.file.NoFault?
    ensures var restart := Restart(FlushDisk(w.disk, w.mem, c.env.floats, io).0, loads);
            && Possible(c, w, restart)
            && (c.restore && loads.file.NoReadFault? ==>
                  (After(c, w, restart).mem == w.mem <==> Fs.Restorable(w.mem, c.env.floats)))
            && (!c.restore ==> After(c, w, restart).mem == [])
  {
    FlushIsCrashDisk(c, w, io);
    Fs.FileRoundTripIff(w.disk.content, w.mem, c.env.floats);
  }
}
