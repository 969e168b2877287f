/** internal/agent: the scanning and the reporting loop, working on one shared in-memory store. */
module AgentService {
  import opened Basics
  import opened Metrics
  import opened MemStore
  import opened Report
  import opened PollCount

  class Agent {
    const storage: MemStore.Storage
    const signKey: string
    const env: Env

    constructor (storage: MemStore.Storage, signKey: string, env: Env)
      ensures this.storage == storage && this.signKey == signKey && this.env == env
    {
      this.storage := storage;
      this.signKey := signKey;
      this.env := env;
    }

    /** Scanner.Scan: the collected gauges are parameters, PollCount is always set to 1. */
    method Scan(runtime: seq<Metric>, workload: seq<Metric>)
      requires storage.Valid()
      modifies storage, storage.metrics
      ensures storage.Valid() && storage.Contents() == Scanned(old(storage.Contents()), runtime, workload)
    {
      var poll := CreateMetric(COUNTER, POLL, [WithValueInt(1)], env.floats);
      CreateCounter(POLL, 1, env.floats);
      storage.UpsertBatch(runtime + [poll.value]);
      storage.UpsertBatch(workload);
    }

    /** The batch reportBatchJSON would send. The store is only read: the hashes go into a copy. */
    method Report() returns (batch: Result<seq<Metric>, Error>)
      requires storage.Valid()
      ensures batch == SignedBatch(signKey, env, storage.Contents())
    {
      var slice := storage.GetBatch();
      batch := SignBatch(slice, signKey, env);
    }

    /** After every report, whether it got through or not, PollCount is dropped; a missing one is no error. */
    method ResetPollCount()
      requires storage.Valid()
      modifies storage, storage.metrics
      ensures storage.Valid() && storage.Contents() == Deleted(old(storage.Contents()), POLL_KEY)
    {
      var poll := CreateMetric(COUNTER, POLL, [WithValueInt(0)], env.floats);
      CreateCounter(POLL, 0, env.floats);
      var _ := storage.Delete(KeyOf(poll.value));
    }
  }
}
