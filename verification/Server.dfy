/**
  * internal/server/manager.go as functions on values: what one call does to live memory and to the durable
  * image, for all three backends. Calls are atomic; the Go code takes no lock.
  */
module Server {
  import opened Basics
  import opened Metrics
  import opened MemStore
  import Db = DbStore
  import Fs = FileStore

  datatype Config = Config(env: Env, signKey: string, writeThrough: bool, restore: bool)

  datatype Disk = NoDisk | File(content: Option<string>) | Table(rows: Db.Table)

  /** What the environment does to the statements and file operations of one call. */
  datatype Io = Io(sql: Db.SqlFault, deleteFails: bool, file: Fs.FileFault)

  datatype World = World(mem: seq<Metric>, disk: Disk)

  function FlushDisk(disk: Disk, s: seq<Metric>, floats: FloatText, io: Io): (Disk, bool) {
    match disk
    case NoDisk => (disk, true)
    case File(content) =>
      var r := Fs.FlushFile(content, s, floats, io.file);
      (File(r.0), r.1)
    case Table(rows) =>
      var r := Db.FlushTable(rows, s, io.sql);
      (Table(r.0), r.1)
  }

  /** The manager's own Flush: only with a zero interval. Its error is logged and dropped. */
  function Written(c: Config, w: World, io: Io): World {
    if c.writeThrough then w.(disk := FlushDisk(w.disk, w.mem, c.env.floats, io).0) else w
  }

  // ---- Upsert ----

  function VerifySign(c: Config, m: Metric): Result<(), Error> {
    if c.signKey == "" then Ok(())
    else
      match Sign(m, c.signKey, c.env)
      case Err(e) => Err(e)
      case Ok(hash) => if hash == m.hash then Ok(()) else Err(SignFailed)
  }

  predicate Verified(c: Config, m: Metric) { VerifySign(c, m).Ok? }

  /** The counter to store: the known total plus the delta, in int64. None is a nil dereference. */
  function Accumulated(s: seq<Metric>, m: Metric): Option<Metric> {
    if m.mtype != COUNTER || !Known(s, KeyOf(m)) then Some(m)
    else
      var known := Lookup(s, KeyOf(m)).value;
      if m.delta.None? || known.delta.None? then None
      else Some(m.(delta := Some(Wrap64(m.delta.value + known.delta.value))))
  }

  /** The metric that goes to the store, or how the call ends instead. */
  function Admit(c: Config, s: seq<Metric>, m: Metric): Result<Metric, Outcome> {
    match VerifySign(c, m)
    case Err(e) => Err(Failed(e))
    case Ok(_) =>
      match Accumulated(s, m)
      case None => Err(Panicked)
      case Some(a) => Ok(a)
  }

  function UpsertCall(c: Config, w: World, m: Metric, io: Io): (World, Outcome) {
    match Admit(c, w.mem, m)
    case Err(o) => (w, o)
    case Ok(a) => (Written(c, w.(mem := Upserted(w.mem, a)), io), Done)
  }

  /** Store after the loop of UpsertBatch, the caller's slice after it, and how the loop ended. */
  datatype BatchRun = BatchRun(mem: seq<Metric>, slice: seq<Metric>, outcome: Outcome)

  function Batch(c: Config, s: seq<Metric>, ms: seq<Metric>): (r: BatchRun)
    ensures |r.slice| == |ms|
    decreases |ms|
  {
    if ms == [] then BatchRun(s, [], Done)
    else
      match Admit(c, s, ms[0])
      case Err(o) => BatchRun(s, ms, o)
      case Ok(a) =>
        var rest := Batch(c, Upserted(s, a), ms[1..]);
        BatchRun(rest.mem, [ms[0].(delta := a.delta)] + rest.slice, rest.outcome)
  }

  /** The loop stands before item i with the given store and the finished part of the caller's slice. */
  ghost predicate AtTurn(c: Config, whole: BatchRun, mem: seq<Metric>, ms: seq<Metric>, i: nat, done: seq<Metric>)
    requires i <= |ms|
  {
    var rest := Batch(c, mem, ms[i..]);
    whole == BatchRun(rest.mem, done + rest.slice, rest.outcome)
  }

  lemma FirstTurn(c: Config, mem: seq<Metric>, ms: seq<Metric>)
    ensures AtTurn(c, Batch(c, mem, ms), mem, ms, 0, [])
  {
  }

  lemma LastTurn(c: Config, whole: BatchRun, mem: seq<Metric>, ms: seq<Metric>, done: seq<Metric>)
    requires AtTurn(c, whole, mem, ms, |ms|, done)
    ensures whole == BatchRun(mem, done, Done)
  {
  }

  lemma NextTurn(c: Config, whole: BatchRun, mem: seq<Metric>, ms: seq<Metric>, i: nat, done: seq<Metric>)
    requires i < |ms| && AtTurn(c, whole, mem, ms, i, done)
    ensures match Admit(c, mem, ms[i])
            case Err(o) => whole == BatchRun(mem, done + ms[i..], o)
            case Ok(a) => AtTurn(c, whole, Upserted(mem, a), ms, i + 1, done + [ms[i].(delta := a.delta)])
  {
  }

  /** A batch that stops part way keeps what it stored and does not flush. */
  function BatchCall(c: Config, w: World, ms: seq<Metric>, io: Io): (World, Outcome) {
    var r := Batch(c, w.mem, ms);
    var after := w.(mem := r.mem);
    (if r.outcome.Done? then Written(c, after, io) else after, r.outcome)
  }

  // ---- Get, GetBatch ----

  /** Reading signs afresh; a metric that cannot be signed keeps the hash it was stored with. */
  function Signed(c: Config, m: Metric): Metric {
    match Sign(m, c.signKey, c.env)
    case Ok(hash) => m.(hash := hash)
    case Err(_) => m
  }

  function SignedAll(c: Config, s: seq<Metric>): (r: seq<Metric>)
    ensures |r| == |s| && forall i :: 0 <= i < |s| ==> r[i] == Signed(c, s[i])
  {
    seq(|s|, i requires 0 <= i < |s| => Signed(c, s[i]))
  }

  function GetCall(c: Config, s: seq<Metric>, k: Key): Result<Metric, Error> {
    match Lookup(s, k) case Some(m) => Ok(Signed(c, m)) case None => Err(NotFound)
  }

  // ---- Delete ----

  /** The database deletes its own row first; when that fails memory has already lost the metric. */
  function DeleteCall(c: Config, w: World, k: Key, io: Io): (World, Outcome) {
    if !Known(w.mem, k) then (w, Failed(NotFound))
    else
      var mem := Deleted(w.mem, k);
      if w.disk.Table? && (io.deleteFails || Db.DeleteRefused(k)) then (w.(mem := mem), Failed(External))
      else
        var disk := if w.disk.Table? then Table(Db.DeleteRow(w.disk.rows, k)) else w.disk;
        (Written(c, World(mem, disk), io), Done)
  }

  // ---- Runs ----

  datatype Op =
    | Upsert(metric: Metric, io: Io)
    | UpsertBatch(metrics: seq<Metric>, io: Io)
    | Delete(key: Key, io: Io)
    | GetBatch
    | Tick(io: Io)

  /** One atomic step of the server; Tick is flushByTick, which only runs with a positive interval. */
  function Step(c: Config, w: World, op: Op): (World, Outcome) {
    match op
    case Upsert(m, io) => UpsertCall(c, w, m, io)
    case UpsertBatch(ms, io) => BatchCall(c, w, ms, io)
    case Delete(k, io) => DeleteCall(c, w, k, io)
    case GetBatch => (w.(mem := SignedAll(c, w.mem)), Done)
    case Tick(io) =>
      if c.writeThrough then (w, Done)
      else
        var r := FlushDisk(w.disk, w.mem, c.env.floats, io);
        (w.(disk := r.0), if r.1 then Done else Failed(External))
  }

  function Run(c: Config, w: World, ops: seq<Op>): World
    decreases |ops|
  {
    if ops == [] then w else Run(c, Step(c, w, ops[0]).0, ops[1..])
  }

  // ---- Crashes and restarts ----

  /** What loading brings at a start: two queries on a database, or one pass over a file. */
  datatype Loads = Loads(first: Db.Fetch, second: Db.Fetch, file: Fs.ReadFault)

  ghost predicate Feasible(disk: Disk, loads: Loads) {
    disk.Table? ==> Db.Feasible(loads.first, disk.rows) && Db.Feasible(loads.second, disk.rows)
  }

  /** Memory after a start on the given image: dbstore.New restores by itself, the manager when told to. */
  ghost function Reopened(c: Config, disk: Disk, loads: Loads): seq<Metric>
    requires Feasible(disk, loads)
  {
    match disk
    case NoDisk => []
    case File(content) =>
      if c.restore then Fs.RestoredFile([], Fs.Readable(content, loads.file), c.env.floats).0 else []
    case Table(rows) =>
      var s := Db.RestoredRows([], rows, Db.Delivered(loads.first));
      if c.restore then Db.RestoredRows(s, rows, Db.Delivered(loads.second)) else s
  }

  /**
    * The images a crash can leave: the current one, a flush of live memory cut at any point, or a table from
    * which a Delete that had not returned yet took its row.
    */
  ghost predicate CrashDisk(c: Config, w: World, disk: Disk) {
    match (w.disk, disk)
    case (NoDisk, NoDisk) => true
    case (File(before), File(after)) => Fs.CrashImage(before, w.mem, c.env.floats, after)
    case (Table(before), Table(after)) =>
      || after == before
      || Db.FlushRows(before, w.mem) == Some(after)
      || exists k :: Known(w.mem, k) && after == Db.DeleteRow(before, k)
    case _ => false
  }

  datatype Event = Call(op: Op) | Restart(disk: Disk, loads: Loads)

  /** A restart finds some crash image, and its loads may fail or break off. */
  ghost predicate Possible(c: Config, w: World, e: Event) {
    match e
    case Call(_) => true
    case Restart(disk, loads) => CrashDisk(c, w, disk) && Feasible(disk, loads)
  }

  ghost function After(c: Config, w: World, e: Event): World
    requires Possible(c, w, e)
  {
    match e
    case Call(op) => Step(c, w, op).0
    case Restart(disk, loads) => World(Reopened(c, disk, loads), disk)
  }

  ghost predicate PossibleLife(c: Config, w: World, life: seq<Event>)
    decreases |life|
  {
    life == [] || (Possible(c, w, life[0]) && PossibleLife(c, After(c, w, life[0]), life[1..]))
  }

  /** The worlds of a life, the first and the last one included. */
  ghost function Worlds(c: Config, w: World, life: seq<Event>): (r: seq<World>)
    requires PossibleLife(c, w, life)
    ensures |r| == |life| + 1 && r[0] == w
    decreases |life|
  {
    [w] + if life == [] then [] else Worlds(c, After(c, w, life[0]), life[1..])
  }
}
