/** internal/server/handlers: the batch endpoint, from an encrypted body to the manager, and what it may change. */
module Handlers {
  import opened Basics
  import opened Metrics
  import opened Codec
  import opened Server
  import opened Manager
  import opened Transport
  import opened Report
  import opened Runs

  /** The batch a body stands for, or the error UpdateDataJSON answers with. */
  function ParsedBody(key: Option<Rsa>, body: string, readFails: bool, floats: FloatText): Result<seq<Metric>, Error>
    requires key.Some? && body != "" ==> key.value.size > 0
  {
    match Decrypted(key, body, readFails)
    case Err(e) => Err(e)
    case Ok(text) => match Unmarshal(text, floats) case None => Err(External) case Some(ms) => Ok(ms)
  }

  /** Handler.UpdateDataJSON: decrypt, decode, then one UpsertBatch on a slice nobody else holds. */
  method UpdateDataJSON(manager: MetricsManager, key: Option<Rsa>, body: string, readFails: bool, io: Io)
    returns (r: Outcome)
    requires manager.Valid() && (key.Some? && body != "" ==> key.value.size > 0)
    modifies manager.holder, manager.memory, manager.memory.metrics
    ensures manager.Valid()
    ensures (manager.State(), r) == match ParsedBody(key, body, readFails, manager.config.env.floats)
                                    case Err(e) => (old(manager.State()), Failed(e))
                                    case Ok(ms) => BatchCall(manager.config, old(manager.State()), ms, io)
  {
    var data := Decrypt(key, body, readFails);
    if data.Err? {
      return Failed(data.error);
    }
    var decoded := Unmarshal(data.value, manager.config.env.floats);
    if decoded.None? {
      return Failed(External);
    }
    var ms := decoded.value;
    var metrics := new Metric[|ms|](i requires 0 <= i < |ms| => ms[i]);
    assert metrics[..] == ms;
    r := manager.UpsertBatch(metrics, io);
  }

  /** What the agent sends for its store: the signed batch, marshalled and encrypted. */
  function BodyOf(key: Option<Rsa>, seeds: nat -> nat, batch: seq<Metric>, floats: FloatText): Result<string, Error>
    requires key.Some? ==> StepOf(key.value) > 0
  {
    match Marshal(batch, floats)
    case None => Err(External)
    case Some(text) => Encrypted(key, seeds, text)
  }

  /** A reporting agent and the server hold two halves of one key pair, or no keys. */
  ghost predicate Paired(key: Option<Rsa>) { key.Some? ==> MatchingKeys(key.value) && key.value.size > 66 }

  lemma SignedBatchIsAccepted(c: Config, store: seq<Metric>, w: World, io: Io)
    requires Sound(w.mem) && SignedBatch(c.signKey, c.env, store).Ok? && (c.signKey == "" ==> AllWellTyped(store))
    ensures BatchCall(c, w, SignedBatch(c.signKey, c.env, store).value, io).1 == Done
  {
    var batch := SignedBatch(c.signKey, c.env, store).value;
    SignedBatchVerifies(c, store);
    SignedBatchShape(c.signKey, c.env, store);
    assert forall i :: 0 <= i < |batch| ==> ReadingOf(batch[i]) == ReadingOf(store[i]);
    BatchEnds(c, w.mem, batch);
  }

  /**
    * From the agent's store to the manager: with a shared sign key the server gets exactly the signed batch,
    * and its UpsertBatch accepts all of it. Without a sign key the store must hold usable metrics for that.
    */
  lemma BodyArrives(c: Config, key: Option<Rsa>, seeds: nat -> nat, store: seq<Metric>, w: World, io: Io)
    requires JsonFloats(c.env.floats) && Paired(key) && SignedBatch(c.signKey, c.env, store).Ok?
    requires var batch := SignedBatch(c.signKey, c.env, store).value;
             AllFinite(batch) && forall i :: 0 <= i < |batch| ==> ValidText(batch[i])
    requires BodyOf(key, seeds, SignedBatch(c.signKey, c.env, store).value, c.env.floats).Ok?
    ensures var batch := SignedBatch(c.signKey, c.env, store).value;
            var body := BodyOf(key, seeds, batch, c.env.floats).value;
            && (key.Some? && body != "" ==> key.value.size > 0)
            && ParsedBody(key, body, false, c.env.floats) == Ok(batch)
            && (forall i :: 0 <= i < |batch| ==> Verified(c, batch[i]))
            && (Sound(w.mem) && (c.signKey == "" ==> AllWellTyped(store)) ==> BatchCall(c, w, batch, io).1 == Done)
  {
    BatchArrives(key, seeds, SignedBatch(c.signKey, c.env, store).value, c.env.floats);
    SignedBatchVerifies(c, store);
    if Sound(w.mem) && (c.signKey == "" ==> AllWellTyped(store)) {
      SignedBatchIsAccepted(c, store, w, io);
    }
  }

  /** The bytes behind the last whole block, if there are any, do not decrypt as a block of their own. */
  predicate TailFails(rsa: Rsa, body: string)
    requires rsa.size > 0
  {
    Tail(body, rsa.size) != "" ==> rsa.decrypt(Tail(body, rsa.size)).None?
  }

  /**
    * Of a body only the whole is ever taken, unless the tail it broke off with happens to decrypt: cut after any
    * number of bytes it changes nothing, although with a key the read error is ignored, and whole it is taken
    * unless there is no key and reading it failed.
    */
  lemma OnlyWholeBodies(key: Option<Rsa>, seeds: nat -> nat, batch: seq<Metric>, floats: FloatText, m: nat,
                        readFails: bool)
    requires JsonFloats(floats) && Paired(key)
    requires BodyOf(key, seeds, batch, floats).Ok? && m <= |BodyOf(key, seeds, batch, floats).value|
    requires key.Some? ==> TailFails(key.value, BodyOf(key, seeds, batch, floats).value[..m])
    ensures var body := BodyOf(key, seeds, batch, floats).value;
            ParsedBody(key, body[..m], readFails, floats).Ok? <==> m == |body| && (key.Some? || !readFails)
  {
    var body, text := BodyOf(key, seeds, batch, floats).value, Marshal(batch, floats).value;
    if m == |body| {
      assert body[..m] == body;
      DecryptOfEncrypt(key, seeds, text);
      UnmarshalOfMarshal(batch, floats);
    } else if key.Some? {
      var n := CutBodyIsTakenIff(key.value, seeds, batch, floats, m, readFails);
    } else {
      UnmarshalOfPrefix(batch, floats, m);
    }
  }

  /**
    * A tail can decrypt: a batch of one block whose ciphertext starts with a zero byte is taken in full from a
    * body that lacks this byte, although that is no whole number of blocks.
    */
  lemma LeadingZeroBodyIsTaken(rsa: Rsa, seed: nat, batch: seq<Metric>, floats: FloatText, readFails: bool)
    requires JsonFloats(floats) && AllFinite(batch) && Paired(Some(rsa)) && ReadsAsNumber(rsa)
    requires var c := rsa.encrypt(Marshal(batch, floats).value, seed); c.Some? && c.value[0] == '\0'
    ensures var body := rsa.encrypt(Marshal(batch, floats).value, seed).value[1..];
            && |body| % rsa.size != 0
            && ParsedBody(Some(rsa), body, readFails, floats) == Ok(SaneMetrics(batch))
  {
    LeadingZeroDecrypts(rsa, Marshal(batch, floats).value, seed, readFails);
    UnmarshalOfMarshal(batch, floats);
  }
}
