/** internal/server.MetricsManager over the three storages, working on their arrays, file and table in place. */
module Manager {
  import opened Basics
  import opened Metrics
  import opened MemStore
  import opened Server
  import Db = DbStore
  import Fs = FileStore

  /** storage.Repository: the implementations the server can be started with. */
  datatype Repository = InMemory(store: MemStore.Storage) | InFile(file: Fs.Storage) | InDatabase(db: Db.Storage) {

    function Memory(): MemStore.Storage {
      match this case InMemory(s) => s case InFile(f) => f.memory case InDatabase(d) => d.memory
    }

    function Holder(): object {
      match this case InMemory(s) => s case InFile(f) => f case InDatabase(d) => d
    }

    ghost function Image(): Disk
      reads Holder()
    {
      match this case InMemory(_) => NoDisk case InFile(f) => File(f.file) case InDatabase(d) => Table(d.table)
    }

    ghost predicate Valid(floats: FloatText)
      reads Memory()
    {
      Memory().Valid() && (InFile? ==> file.floats == floats)
    }

    method Flush(io: Io, ghost floats: FloatText) returns (ok: bool)
      requires Valid(floats)
      modifies Holder()
      ensures Valid(floats) && Memory().metrics == old(Memory().metrics)
      ensures Memory().Contents() == old(Memory().Contents())
      ensures (Image(), ok) == FlushDisk(old(Image()), Memory().Contents(), floats, io)
    {
      match this
      case InMemory(_) => ok := true;
      case InFile(f) => ok := f.Flush(io.file);
      case InDatabase(d) => ok := d.Flush(io.sql);
    }

    /** The outcome of Delete before the manager flushes. */
    method Delete(k: Key, io: Io) returns (r: Result<(), Error>)
      requires Memory().Valid()
      modifies Holder(), Memory(), Memory().metrics
      ensures Memory().Valid() && Memory().metrics == old(Memory().metrics)
      ensures Memory().Contents() == Deleted(old(Memory().Contents()), k)
      ensures !Known(old(Memory().Contents()), k) ==> r == Err(NotFound) && Image() == old(Image())
      ensures Known(old(Memory().Contents()), k) ==>
                if InDatabase? && (io.deleteFails || Db.DeleteRefused(k)) then
                  r == Err(External) && Image() == old(Image())
                else
                  r == Ok(()) && Image() == if InDatabase? then Table(Db.DeleteRow(old(db.table), k)) else old(Image())
    {
      match this
      case InMemory(s) => r := s.Delete(k);
      case InFile(f) => r := f.memory.Delete(k);
      case InDatabase(d) => r := d.Delete(k, io.deleteFails);
    }
  }

  class MetricsManager {
    const storage: Repository
    const config: Config
    const memory: MemStore.Storage
    const holder: object

    constructor (storage: Repository, config: Config)
      ensures this.storage == storage && this.config == config
      ensures memory == storage.Memory() && holder == storage.Holder()
    {
      this.storage := storage;
      this.config := config;
      memory := storage.Memory();
      holder := storage.Holder();
    }

    ghost predicate Valid()
      reads memory
    {
      memory == storage.Memory() && holder == storage.Holder() && storage.Valid(config.env.floats)
    }

    ghost function State(): World
      requires Valid()
      reads memory, memory.metrics, holder
    {
      World(memory.Contents(), storage.Image())
    }

    method Flush(io: Io)
      requires Valid()
      modifies holder
      ensures Valid() && memory.metrics == old(memory.metrics)
      ensures State() == Written(config, old(State()), io)
    {
      if config.writeThrough {
        var _ := storage.Flush(io, config.env.floats);
      }
    }

    method AccumulateCounter(m: Metric) returns (r: Option<Metric>)
      requires memory.Valid()
      ensures r == Accumulated(memory.Contents(), m)
    {
      if m.mtype != COUNTER {
        return Some(m);
      }
      var known := memory.Get(KeyOf(m));
      if known.Err? {
        return Some(m);
      }
      if m.delta.None? || known.value.delta.None? {
        return None;
      }
      return Some(m.(delta := Some(Wrap64(m.delta.value + known.value.delta.value))));
    }

    /** Signature check and accumulation, as both Upsert and UpsertBatch begin with. */
    method Admission(m: Metric) returns (r: Result<Metric, Outcome>)
      requires memory.Valid()
      ensures r == Admit(config, memory.Contents(), m)
    {
      var signature := VerifySign(config, m);
      if signature.Err? {
        return Err(Failed(signature.error));
      }
      var accumulated := AccumulateCounter(m);
      if accumulated.None? {
        return Err(Panicked);
      }
      return Ok(accumulated.value);
    }

    method Upsert(m: Metric, io: Io) returns (r: Outcome)
      requires Valid()
      modifies holder, memory, memory.metrics
      ensures Valid()
      ensures (State(), r) == UpsertCall(config, old(State()), m, io)
    {
      var admitted := Admission(m);
      if admitted.Err? {
        return admitted.error;
      }
      memory.Upsert(admitted.value);
      Flush(io);
      return Done;
    }

    /** The loop of UpsertBatch: each accepted counter's running total is written back into the caller's slice. */
    method AcceptAll(metrics: array<Metric>) returns (r: Outcome)
      requires memory.Valid() && metrics != memory.metrics
      modifies metrics, memory, memory.metrics
      ensures memory.Valid() && (memory.metrics == old(memory.metrics) || fresh(memory.metrics))
      ensures BatchRun(memory.Contents(), metrics[..], r) == Batch(config, old(memory.Contents()), old(metrics[..]))
    {
      ghost var was, done := metrics[..], [];
      ghost var whole := Batch(config, memory.Contents(), was);
      FirstTurn(config, memory.Contents(), was);
      var i := 0;
      while i < metrics.Length
        invariant 0 <= i <= metrics.Length && |done| == i
        invariant memory.Valid() && (memory.metrics == old(memory.metrics) || fresh(memory.metrics))
        invariant metrics != memory.metrics && metrics[..] == done + was[i..]
        invariant AtTurn(config, whole, memory.Contents(), was, i, done)
      {
        var m := metrics[i];
        assert m == metrics[..][i] == was[i];
        NextTurn(config, whole, memory.Contents(), was, i, done);
        var admitted := Admission(m);
        if admitted.Err? {
          return admitted.error;
        }
        metrics[i] := m.(delta := admitted.value.delta);
        WrittenBack(done, was, i, metrics[i]);
        assert metrics[..] == (done + was[i..])[i := metrics[i]];
        done := done + [metrics[i]];
        memory.Upsert(admitted.value);
        i := i + 1;
      }
      LastTurn(config, whole, memory.Contents(), was, done);
      assert done + was[i..] == done;
      return Done;
    }

    static lemma WrittenBack(done: seq<Metric>, was: seq<Metric>, i: nat, m: Metric)
      requires i == |done| < |was|
      ensures (done + was[i..])[i := m] == (done + [m]) + was[i + 1..]
    {
    }

    method UpsertBatch(metrics: array<Metric>, io: Io) returns (r: Outcome)
      requires Valid() && metrics != memory.metrics
      modifies metrics, holder, memory, memory.metrics
      ensures Valid()
      ensures (State(), r) == BatchCall(config, old(State()), old(metrics[..]), io)
      ensures metrics[..] == Batch(config, old(State()).mem, old(metrics[..])).slice
    {
      r := AcceptAll(metrics);
      if r.Done? {
        Flush(io);
      }
    }

    method Get(k: Key) returns (r: Result<Metric, Error>)
      requires Valid()
      ensures r == GetCall(config, State().mem, k)
    {
      var found := memory.Get(k);
      if found.Err? {
        return Err(found.error);
      }
      return Ok(Signed(config, found.value));
    }

    /** The slice handed out is the store's own array, so signing it writes into the store. */
    method GetBatch() returns (r: Slice)
      requires Valid()
      modifies memory.metrics
      ensures Valid() && r == Slice(memory.metrics, memory.count)
      ensures State() == old(State()).(mem := SignedAll(config, old(State()).mem))
      ensures (State(), Done) == Step(config, old(State()), Op.GetBatch)
    {
      r := memory.GetBatch();
      ghost var was := memory.Contents();
      var i := 0;
      while i < r.len
        invariant 0 <= i <= r.len
        invariant forall j :: 0 <= j < i ==> r.data[j] == Signed(config, was[j])
        invariant forall j :: i <= j < r.len ==> r.data[j] == was[j]
      {
        var hash := Sign(r.data[i], config.signKey, config.env);
        if hash.Ok? {
          r.data[i] := r.data[i].(hash := hash.value);
        }
        i := i + 1;
      }
    }

    method Delete(k: Key, io: Io) returns (r: Outcome)
      requires Valid()
      modifies holder, memory, memory.metrics
      ensures Valid()
      ensures (State(), r) == DeleteCall(config, old(State()), k, io)
    {
      var deleted := storage.Delete(k, io);
      if deleted.Err? {
        return Failed(deleted.error);
      }
      Flush(io);
      return Done;
    }

    /** One turn of flushByTick, which only runs with a positive interval. */
    method Tick(io: Io) returns (r: Outcome)
      requires Valid()
      modifies holder
      ensures Valid() && memory.metrics == old(memory.metrics)
      ensures (State(), r) == Step(config, old(State()), Op.Tick(io))
    {
      if config.writeThrough {
        return Done;
      }
      var ok := storage.Flush(io, config.env.floats);
      r := if ok then Done else Failed(External);
    }
  }

  /** The start of the server on an existing image: open the storage, then server.New with its restore flag. */
  method Open(config: Config, disk: Disk, loads: Loads) returns (m: MetricsManager)
    requires Feasible(disk, loads)
    ensures m.Valid() && m.config == config && m.State() == World(Reopened(config, disk, loads), disk)
  {
    match disk
    case NoDisk =>
      var store := new MemStore.Storage();
      m := new MetricsManager(InMemory(store), config);
    case File(content) =>
      var file := new Fs.Storage(content, config.env.floats);
      if config.restore {
        var _ := file.Restore(loads.file);
      }
      m := new MetricsManager(InFile(file), config);
    case Table(rows) =>
      var db := new Db.Storage(rows, loads.first);
      if config.restore {
        var _ := db.Restore(loads.second);
      }
      m := new MetricsManager(InDatabase(db), config);
  }
}
