/** What the manager keeps over whole runs: no nil dereference, exact totals, and reads that change nothing. */
module Runs {
  import opened Basics
  import opened Metrics
  import opened MemStore
  import opened Server
  import Db = DbStore
  import Fs = FileStore

  // ---- No nil dereference ----

  ghost predicate AllWellTyped(s: seq<Metric>) { forall i :: 0 <= i < |s| ==> WellTyped(s[i]) }

  ghost predicate Sound(s: seq<Metric>) { UniqueKeys(s) && AllWellTyped(s) }

  /** A metric that passes the signature check has a value. With a sign key every metric is admissible. */
  predicate Admissible(c: Config, m: Metric) { Verified(c, m) ==> WellTyped(m) }

  lemma SignKeyAdmitsAll(c: Config, m: Metric)
    requires c.signKey != ""
    ensures Admissible(c, m)
  {
  }

  ghost predicate AllAdmissible(c: Config, ms: seq<Metric>) { forall i :: 0 <= i < |ms| ==> Admissible(c, ms[i]) }

  ghost predicate OpAdmissible(c: Config, op: Op) {
    match op case Upsert(m, _) => Admissible(c, m) case UpsertBatch(ms, _) => AllAdmissible(c, ms) case _ => true
  }

  ghost predicate OpsAdmissible(c: Config, ops: seq<Op>) { forall i :: 0 <= i < |ops| ==> OpAdmissible(c, ops[i]) }

  /** An accepted metric never meets a nil field, and the store stays sound. */
  lemma AdmitSound(c: Config, s: seq<Metric>, m: Metric)
    requires Sound(s) && Admissible(c, m)
    ensures Verified(c, m) <==> Admit(c, s, m).Ok?
    ensures Admit(c, s, m).Err? ==> Admit(c, s, m).error.Failed?
    ensures Admit(c, s, m).Ok? ==> Sound(Upserted(s, Admit(c, s, m).value))
  {
    if Verified(c, m) {
      var a := Accumulated(s, m).value;
      UpsertRefinesMap(s, a);
    }
  }

  lemma {:induction false} BatchSound(c: Config, s: seq<Metric>, ms: seq<Metric>)
    requires Sound(s) && AllAdmissible(c, ms)
    ensures Sound(Batch(c, s, ms).mem) && !Batch(c, s, ms).outcome.Panicked?
    decreases |ms|
  {
    if ms == [] {
    } else {
      AdmitSound(c, s, ms[0]);
      if Admit(c, s, ms[0]).Ok? {
        BatchSound(c, Upserted(s, Admit(c, s, ms[0]).value), ms[1..]);
      }
    }
  }

  lemma SignedAllKeeps(c: Config, s: seq<Metric>)
    ensures Keys(SignedAll(c, s)) == Keys(s)
    ensures UniqueKeys(s) ==> UniqueKeys(SignedAll(c, s))
    ensures AllWellTyped(s) ==> AllWellTyped(SignedAll(c, s))
    ensures forall k :: IndexOf(SignedAll(c, s), k) == IndexOf(s, k)
  {
    var t := SignedAll(c, s);
    assert forall i :: 0 <= i < |s| ==> KeyOf(t[i]) == KeyOf(s[i]) && ReadingOf(t[i]) == ReadingOf(s[i]);
  }

  /** From a sound store every call ends without a panic in a sound store, whatever SQL and files do. */
  lemma StepSound(c: Config, w: World, op: Op)
    requires Sound(w.mem) && OpAdmissible(c, op)
    ensures Sound(Step(c, w, op).0.mem) && !Step(c, w, op).1.Panicked?
  {
    match op
    case Upsert(m, _) => AdmitSound(c, w.mem, m);
    case UpsertBatch(ms, _) => BatchSound(c, w.mem, ms);
    case Delete(k, _) => DeletedSound(w.mem, k);
    case GetBatch => SignedAllKeeps(c, w.mem);
    case Tick(_) =>
  }

  lemma DeletedSound(s: seq<Metric>, k: Key)
    requires Sound(s)
    ensures Sound(Deleted(s, k))
  {
  }

  function Outcomes(c: Config, w: World, ops: seq<Op>): (r: seq<Outcome>)
    ensures |r| == |ops|
    decreases |ops|
  {
    if ops == [] then [] else [Step(c, w, ops[0]).1] + Outcomes(c, Step(c, w, ops[0]).0, ops[1..])
  }

  lemma {:induction false} RunNeverPanics(c: Config, w: World, ops: seq<Op>)
    requires Sound(w.mem) && OpsAdmissible(c, ops)
    ensures Sound(Run(c, w, ops).mem) && Panicked !in Outcomes(c, w, ops)
    decreases |ops|
  {
    if ops == [] {
    } else {
      StepSound(c, w, ops[0]);
      RunNeverPanics(c, Step(c, w, ops[0]).0, ops[1..]);
    }
  }

  // ---- Unique keys, whatever is sent ----

  lemma {:induction false} BatchUnique(c: Config, s: seq<Metric>, ms: seq<Metric>)
    requires UniqueKeys(s)
    ensures UniqueKeys(Batch(c, s, ms).mem)
    decreases |ms|
  {
    if ms == [] || Admit(c, s, ms[0]).Err? {
    } else {
      var a := Admit(c, s, ms[0]).value;
      UpsertRefinesMap(s, a);
      BatchUnique(c, Upserted(s, a), ms[1..]);
    }
  }

  lemma StepUnique(c: Config, w: World, op: Op)
    requires UniqueKeys(w.mem)
    ensures UniqueKeys(Step(c, w, op).0.mem)
  {
    match op
    case Upsert(m, _) =>
      if Admit(c, w.mem, m).Ok? {
        UpsertRefinesMap(w.mem, Admit(c, w.mem, m).value);
      }
    case UpsertBatch(ms, _) => BatchUnique(c, w.mem, ms);
    case Delete(k, _) => DeleteKeepsUnique(w.mem, k);
    case GetBatch => SignedAllKeeps(c, w.mem);
    case Tick(_) =>
  }

  /** No run of calls, malformed metrics and panics included, stores two entries of one (type, id). */
  lemma {:induction false} RunKeepsKeysUnique(c: Config, w: World, ops: seq<Op>)
    requires UniqueKeys(w.mem)
    ensures UniqueKeys(Run(c, w, ops).mem)
    decreases |ops|
  {
    if ops == [] {
    } else {
      StepUnique(c, w, ops[0]);
      RunKeepsKeysUnique(c, Step(c, w, ops[0]).0, ops[1..]);
    }
  }

  /** Without admissibility an Upsert panics exactly when it adds to a known counter and one side has no Delta. */
  lemma UpsertPanicsIff(c: Config, w: World, m: Metric, io: Io)
    ensures UpsertCall(c, w, m, io).1.Panicked?
            <==> Verified(c, m) && m.mtype == COUNTER && Known(w.mem, KeyOf(m))
                 && (m.delta.None? || Lookup(w.mem, KeyOf(m)).value.delta.None?)
  {
  }

  /** Two entries of one counter, one of them without a Delta. */
  predicate NilPair(u: seq<Metric>, i: nat, j: nat)
    requires i < j < |u|
  {
    u[i].mtype == COUNTER && KeyOf(u[i]) == KeyOf(u[j]) && (u[i].delta.None? || u[j].delta.None?)
  }

  /** Such a pair whose later entry stands at position n or behind it. */
  ghost predicate NilMeets(u: seq<Metric>, n: nat) { exists i, j :: 0 <= i < j < |u| && n <= j && NilPair(u, i, j) }

  lemma NilPairInFront(s: seq<Metric>, m: Metric, rest: seq<Metric>, i: nat)
    requires i < |s|
    ensures NilPair((s + [m]) + rest, i, |s|) <==> NilPair(s + [m], i, |s|)
  {
  }

  lemma NextNilPair(s: seq<Metric>, m: Metric, rest: seq<Metric>)
    requires m.mtype == COUNTER ==> forall i :: 0 <= i < |s| ==> !NilPair(s + [m], i, |s|)
    ensures NilMeets((s + [m]) + rest, |s|) <==> NilMeets((s + [m]) + rest, |s| + 1)
  {
    var u := (s + [m]) + rest;
    if NilMeets(u, |s|) {
      var i, j :| 0 <= i < j < |u| && |s| <= j && NilPair(u, i, j);
      if i < |s| {
        NilPairInFront(s, m, rest, i);
      }
      assert NilMeets(u, |s| + 1);
    }
  }

  /** Merging an entry into one of its key moves no pair, as long as the two make none themselves. */
  lemma MergedNilPairs(s: seq<Metric>, i: nat, m: Metric, e: Metric, rest: seq<Metric>)
    requires i < |s| && KeyOf(s[i]) == KeyOf(m) == KeyOf(e)
    requires m.mtype == COUNTER ==> s[i].delta.Some? && m.delta.Some? && e.delta.Some?
    ensures NilMeets((s + [m]) + rest, |s| + 1) <==> NilMeets(s[i := e] + rest, |s|)
  {
    var u, v := (s + [m]) + rest, s[i := e] + rest;
    assert forall j :: |s| <= j < |v| ==> v[j] == u[j + 1];
    if NilMeets(u, |s| + 1) {
      var p, q :| 0 <= p < q < |u| && |s| + 1 <= q && NilPair(u, p, q);
      assert NilPair(v, if p == |s| then i else if p < |s| then p else p - 1, q - 1);
    }
    if NilMeets(v, |s|) {
      var p, q :| 0 <= p < q < |v| && |s| <= q && NilPair(v, p, q);
      assert NilPair(u, if p < |s| then p else p + 1, q + 1);
    }
  }

  lemma AdmitPanicsIff(c: Config, s: seq<Metric>, m: Metric)
    requires UniqueKeys(s) && Verified(c, m)
    ensures Admit(c, s, m) == Err(Panicked) <==> exists i :: 0 <= i < |s| && NilPair(s + [m], i, |s|)
    ensures Admit(c, s, m) != Err(Panicked) <==> Admit(c, s, m).Ok?
  {
    if Admit(c, s, m).Err? {
      assert NilPair(s + [m], IndexOf(s, KeyOf(m)), |s|);
    }
    if i :| 0 <= i < |s| && NilPair(s + [m], i, |s|) {
      OnlyMatch(s, i);
    }
  }

  lemma AdmittedNilPairs(c: Config, s: seq<Metric>, m: Metric, rest: seq<Metric>)
    requires UniqueKeys(s) && Verified(c, m) && Admit(c, s, m).Ok?
    ensures var next := Upserted(s, Admit(c, s, m).value);
            NilMeets((s + [m]) + rest, |s|) <==> NilMeets(next + rest, |next|)
  {
    AdmitPanicsIff(c, s, m);
    NextNilPair(s, m, rest);
    if Known(s, KeyOf(m)) {
      var i := IndexOf(s, KeyOf(m));
      MergedNilPairs(s, i, m, Merge(s[i], Admit(c, s, m).value), rest);
    }
  }

  /**
    * The exact condition in terms of what is stored and sent: a batch panics iff among the stored metrics and
    * its verified prefix some counter of the prefix meets an earlier one of its id, and either has no Delta.
    */
  lemma {:induction false} BatchPanicsIff(c: Config, s: seq<Metric>, ms: seq<Metric>)
    requires UniqueKeys(s)
    ensures Batch(c, s, ms).outcome.Panicked? <==> NilMeets(s + ms[..VerifiedPrefix(c, ms)], |s|)
    decreases |ms|
  {
    var n := VerifiedPrefix(c, ms);
    if n > 0 {
      var m, rest := ms[0], ms[1..][..n - 1];
      assert s + ms[..n] == (s + [m]) + rest;
      AdmitPanicsIff(c, s, m);
      if Admit(c, s, m).Err? {
        var i :| 0 <= i < |s| && NilPair(s + [m], i, |s|);
        assert NilPair((s + [m]) + rest, i, |s|);
      } else {
        var a := Admit(c, s, m).value;
        UpsertRefinesMap(s, a);
        BatchPanicsIff(c, Upserted(s, a), ms[1..]);
        AdmittedNilPairs(c, s, m, rest);
      }
    }
  }

  /** It happens: with no sign key, the same counter without a Delta sent twice. */
  lemma UnsignedNilCounterPanics(env: Env, io: Io)
    ensures var c := Config(env, "", true, true);
            var m := Metric("x", COUNTER, None, None, "");
            Outcomes(c, World([], NoDisk), [Upsert(m, io), Upsert(m, io)]) == [Done, Panicked]
  {
  }

  // ---- How a call ends ----

  /** The signature check: with a key, a value of the type and the HMAC of the source; the error says what was wrong. */
  lemma SignatureMeans(c: Config, m: Metric)
    ensures c.signKey == "" ==> VerifySign(c, m) == Ok(())
    ensures c.signKey != "" ==>
              VerifySign(c, m) == if !WellTyped(m) then
                                    Err(if m.mtype == GAUGE || m.mtype == COUNTER then InvalidValue else UnknownType)
                                  else if m.hash == c.env.hmac(c.signKey, SignSource(m, c.env.floats).value) then Ok(())
                                  else Err(SignFailed)
  {
    if c.signKey != "" {
      SignMeans(m, c.signKey, c.env);
    }
  }

  /** An Upsert of a usable metric on a sound server is Done, or fails by its signature and changes nothing. */
  lemma UpsertEnds(c: Config, w: World, m: Metric, io: Io)
    requires Sound(w.mem) && Admissible(c, m)
    ensures Verified(c, m) ==> UpsertCall(c, w, m, io).1 == Done && Known(UpsertCall(c, w, m, io).0.mem, KeyOf(m))
    ensures !Verified(c, m) ==> UpsertCall(c, w, m, io) == (w, Failed(VerifySign(c, m).error))
  {
    AdmitSound(c, w.mem, m);
    if Verified(c, m) {
      var a := Admit(c, w.mem, m).value;
      UpsertRefinesMap(w.mem, a);
      assert Lookup(Upserted(w.mem, a), KeyOf(m)).Some?;
    }
  }

  /** Get and Delete answer not found exactly for a key that no stored metric has, and then change nothing. */
  lemma NotFoundIff(c: Config, w: World, k: Key, io: Io)
    ensures GetCall(c, w.mem, k) == Err(NotFound) <==> forall i :: 0 <= i < |w.mem| ==> KeyOf(w.mem[i]) != k
    ensures DeleteCall(c, w, k, io).1 == Failed(NotFound) <==> forall i :: 0 <= i < |w.mem| ==> KeyOf(w.mem[i]) != k
    ensures DeleteCall(c, w, k, io).1 == Failed(NotFound) ==> DeleteCall(c, w, k, io).0 == w
  {
  }

  // ---- What a signature binds ----

  /** Two different texts that the server signs with the same HMAC. */
  predicate Collide(c: Config, m: Metric, n: Metric) {
    var x, y := SignSource(m, c.env.floats), SignSource(n, c.env.floats);
    x.Ok? && y.Ok? && x != y && c.env.hmac(c.signKey, x.value) == c.env.hmac(c.signKey, y.value)
  }

  /**
    * Unless the two signed texts at hand collide under HMAC, the hash that was accepted for one counter is
    * accepted for exactly the metrics of its id, type and delta, colons in ids included.
    */
  lemma HashBindsCounter(c: Config, m: Metric, n: Metric)
    requires c.signKey != "" && ColonFree(c.env.floats)
    requires Verified(c, m) && m.mtype == COUNTER && !Collide(c, m, n)
    ensures Verified(c, n.(hash := m.hash)) <==> KeyOf(n) == KeyOf(m) && n.delta == m.delta
  {
    SignableIffWellTyped(m, c.signKey, c.env);
    SignableIffWellTyped(n, c.signKey, c.env);
    if WellTyped(n) {
      SignSourceIdentifies(m, n, c.env.floats);
    }
  }

  /** What a sound server hands out carries a signature its own check accepts, and the stored value. */
  lemma ReadsVerify(c: Config, s: seq<Metric>, k: Key)
    requires AllWellTyped(s) && GetCall(c, s, k).Ok?
    ensures var m := GetCall(c, s, k).value;
            Verified(c, m) && KeyOf(m) == k && ReadingOf(m) == ReadingOf(Lookup(s, k).value)
  {
  }

  // ---- Conservation ----

  /** What is owed to one id: the unbounded sum of a counter's deltas, and a gauge's last value. */
  datatype Account = Account(total: Option<int>, level: Option<Float64>)

  function Credit(a: Account, id: string, m: Metric): Account {
    if m.id != id then a
    else match ReadingOf(m)
      case Total(d) => a.(total := Some((if a.total.Some? then a.total.value else 0) + d))
      case Level(v) => a.(level := Some(v))
      case Nothing => a
  }

  function CreditAll(a: Account, id: string, ms: seq<Metric>): Account
    decreases |ms|
  {
    if ms == [] then a else CreditAll(Credit(a, id, ms[0]), id, ms[1..])
  }

  /** Length of the longest prefix of a batch whose signatures all verify. */
  function VerifiedPrefix(c: Config, ms: seq<Metric>): (n: nat)
    ensures n <= |ms| && (n < |ms| ==> !Verified(c, ms[n]))
    ensures forall i :: 0 <= i < n ==> Verified(c, ms[i])
  {
    if ms == [] || !Verified(c, ms[0]) then 0 else 1 + VerifiedPrefix(c, ms[1..])
  }

  /** The bookkeeping of one call, which never looks at the store. */
  function Booked(c: Config, a: Account, id: string, op: Op): Account {
    match op
    case Upsert(m, _) => if Verified(c, m) then Credit(a, id, m) else a
    case UpsertBatch(ms, _) => CreditAll(a, id, ms[..VerifiedPrefix(c, ms)])
    case Delete(k, _) =>
      if k == Key(COUNTER, id) then a.(total := None)
      else if k == Key(GAUGE, id) then a.(level := None)
      else a
    case _ => a
  }

  function Ledger(c: Config, a: Account, id: string, ops: seq<Op>): Account
    decreases |ops|
  {
    if ops == [] then a else Ledger(c, Booked(c, a, id, ops[0]), id, ops[1..])
  }

  function Wrapped(total: Option<int>): Option<Int64> {
    match total case None => None case Some(n) => Some(Wrap64(n))
  }

  function CounterOf(s: seq<Metric>, id: string): Option<Int64> {
    match Lookup(s, Key(COUNTER, id)) case None => None case Some(m) => m.delta
  }

  function GaugeOf(s: seq<Metric>, id: string): Option<Float64> {
    match Lookup(s, Key(GAUGE, id)) case None => None case Some(m) => m.value
  }

  /** The store holds the account: the wrapped sum of the counter and the last value of the gauge. */
  predicate Holds(s: seq<Metric>, id: string, a: Account) {
    CounterOf(s, id) == Wrapped(a.total) && GaugeOf(s, id) == a.level
  }

  lemma UpsertedReads(s: seq<Metric>, m: Metric, id: string)
    requires UniqueKeys(s)
    ensures CounterOf(Upserted(s, m), id) == if KeyOf(m) == Key(COUNTER, id) then m.delta else CounterOf(s, id)
    ensures GaugeOf(Upserted(s, m), id) == if KeyOf(m) == Key(GAUGE, id) then m.value else GaugeOf(s, id)
  {
    UpsertRefinesMap(s, m);
  }

  lemma AccumulatedTotal(s: seq<Metric>, m: Metric, a: Account)
    requires AllWellTyped(s) && WellTyped(m) && Holds(s, m.id, a)
    ensures Accumulated(s, m) == Some(if m.mtype == COUNTER then m.(delta := Wrapped(Credit(a, m.id, m).total)) else m)
  {
    if m.mtype == COUNTER && Known(s, KeyOf(m)) {
      assert WellTyped(s[IndexOf(s, KeyOf(m))]);
      WrapAbsorbs(a.total.value, m.delta.value);
    }
  }

  /** The admitted metric is the one sent, with the running total in place of a counter's delta. */
  lemma AdmittedTotal(c: Config, s: seq<Metric>, m: Metric, a: Account)
    requires Sound(s) && Verified(c, m) && WellTyped(m) && Holds(s, m.id, a)
    ensures Admit(c, s, m) == Ok(if m.mtype == COUNTER then m.(delta := Wrapped(Credit(a, m.id, m).total)) else m)
  {
    AccumulatedTotal(s, m, a);
  }

  lemma AdmitCredits(c: Config, s: seq<Metric>, m: Metric, id: string, a: Account)
    requires Sound(s) && Verified(c, m) && WellTyped(m) && Holds(s, id, a)
    ensures Admit(c, s, m).Ok? && Holds(Upserted(s, Admit(c, s, m).value), id, Credit(a, id, m))
    ensures m.mtype == COUNTER && m.id == id ==> Admit(c, s, m).value == m.(delta := Wrapped(Credit(a, id, m).total))
  {
    AdmitSound(c, s, m);
    UpsertedReads(s, Admit(c, s, m).value, id);
    if m.id == id {
      AdmittedTotal(c, s, m, a);
    }
  }

  lemma {:induction false} BatchCredits(c: Config, s: seq<Metric>, ms: seq<Metric>, id: string, a: Account)
    requires Sound(s) && AllAdmissible(c, ms) && Holds(s, id, a)
    ensures Holds(Batch(c, s, ms).mem, id, CreditAll(a, id, ms[..VerifiedPrefix(c, ms)]))
    decreases |ms|
  {
    if ms == [] || !Verified(c, ms[0]) {
    } else {
      AdmitSound(c, s, ms[0]);
      AdmitCredits(c, s, ms[0], id, a);
      BatchCredits(c, Upserted(s, Admit(c, s, ms[0]).value), ms[1..], id, Credit(a, id, ms[0]));
      var n := VerifiedPrefix(c, ms);
      assert ms[..n][0] == ms[0] && ms[..n][1..] == ms[1..][..n - 1];
    }
  }

  lemma UpsertBooks(c: Config, w: World, m: Metric, io: Io, id: string, a: Account)
    requires Sound(w.mem) && Admissible(c, m) && Holds(w.mem, id, a)
    ensures Holds(UpsertCall(c, w, m, io).0.mem, id, if Verified(c, m) then Credit(a, id, m) else a)
  {
    AdmitSound(c, w.mem, m);
    if Verified(c, m) {
      AdmitCredits(c, w.mem, m, id, a);
    }
  }

  lemma StepBooks(c: Config, w: World, op: Op, id: string, a: Account)
    requires Sound(w.mem) && OpAdmissible(c, op) && Holds(w.mem, id, a)
    ensures Holds(Step(c, w, op).0.mem, id, Booked(c, a, id, op))
  {
    match op
    case Upsert(m, io) => UpsertBooks(c, w, m, io, id, a);
    case UpsertBatch(ms, _) => BatchCredits(c, w.mem, ms, id, a);
    case Delete(k, _) => DeletedBooks(w.mem, k, id, a);
    case GetBatch => SignedBooks(c, w.mem, id, a);
    case Tick(_) =>
  }

  lemma SignedBooks(c: Config, s: seq<Metric>, id: string, a: Account)
    requires Holds(s, id, a)
    ensures Holds(SignedAll(c, s), id, a)
  {
    SignedAllKeeps(c, s);
  }

  lemma DeletedBooks(s: seq<Metric>, k: Key, id: string, a: Account)
    requires Sound(s) && Holds(s, id, a)
    ensures Holds(Deleted(s, k), id, if k == Key(COUNTER, id) then a.(total := None)
                                     else if k == Key(GAUGE, id) then a.(level := None) else a)
  {
    DeleteLookup(s, k, Key(COUNTER, id));
    DeleteLookup(s, k, Key(GAUGE, id));
  }

  function Opening(s: seq<Metric>, id: string): Account {
    var total := CounterOf(s, id);
    Account(if total.Some? then Some(total.value) else None, GaugeOf(s, id))
  }

  lemma {:induction false} RunBooks(c: Config, w: World, ops: seq<Op>, id: string, a: Account)
    requires Sound(w.mem) && OpsAdmissible(c, ops) && Holds(w.mem, id, a)
    ensures Holds(Run(c, w, ops).mem, id, Ledger(c, a, id, ops))
    decreases |ops|
  {
    if ops == [] {
    } else {
      StepSound(c, w, ops[0]);
      StepBooks(c, w, ops[0], id, a);
      RunBooks(c, Step(c, w, ops[0]).0, ops[1..], id, Booked(c, a, id, ops[0]));
    }
  }

  /**
    * After any run, a stored counter is the int64 wrap of its opening value plus every delta accepted since
    * its last delete, rejected batch tails excluded, and a gauge is its last accepted value.
    */
  lemma Conservation(c: Config, w: World, ops: seq<Op>, id: string)
    requires Sound(w.mem) && OpsAdmissible(c, ops)
    ensures Holds(Run(c, w, ops).mem, id, Ledger(c, Opening(w.mem, id), id, ops))
  {
    RunBooks(c, w, ops, id, Opening(w.mem, id));
  }

  // ---- The order of deltas does not matter ----

  function DeltaFor(id: string, m: Metric): int {
    if m.id == id && ReadingOf(m).Total? then ReadingOf(m).delta else 0
  }

  function DeltaSum(id: string, ms: seq<Metric>): int {
    if ms == [] then 0 else DeltaFor(id, ms[0]) + DeltaSum(id, ms[1..])
  }

  ghost predicate Counts(id: string, ms: seq<Metric>) { exists m :: m in ms && m.id == id && ReadingOf(m).Total? }

  /** A total after deltas were added to it: unbounded, and created by the first delta. */
  ghost function Summed(before: Option<int>, id: string, ms: seq<Metric>): Option<int> {
    if Counts(id, ms) then Some((if before.Some? then before.value else 0) + DeltaSum(id, ms)) else before
  }

  lemma {:induction false} CreditAllIsSum(a: Account, id: string, ms: seq<Metric>)
    ensures CreditAll(a, id, ms).total == Summed(a.total, id, ms)
    decreases |ms|
  {
    if ms == [] {
    } else {
      CreditAllIsSum(Credit(a, id, ms[0]), id, ms[1..]);
      assert ms == [ms[0]] + ms[1..];
      if ms[0].id == id && ReadingOf(ms[0]).Total? {
        assert Counts(id, ms);
        assert !Counts(id, ms[1..]) ==> DeltaSum(id, ms[1..]) == 0 by { NoCountsNoSum(id, ms[1..]); }
      } else {
        assert Counts(id, ms) <==> Counts(id, ms[1..]);
      }
    }
  }

  lemma {:induction false} NoCountsNoSum(id: string, ms: seq<Metric>)
    ensures !Counts(id, ms) ==> DeltaSum(id, ms) == 0
  {
    if ms == [] {
    } else {
      NoCountsNoSum(id, ms[1..]);
      assert forall m :: m in ms[1..] ==> m in ms;
      assert ms[0] in ms;
    }
  }

  lemma {:induction false} SumWithout(id: string, ms: seq<Metric>, i: nat)
    requires i < |ms|
    ensures DeltaSum(id, ms) == DeltaFor(id, ms[i]) + DeltaSum(id, ms[..i] + ms[i + 1..])
  {
    if i == 0 {
      assert ms[..0] + ms[1..] == ms[1..];
    } else {
      SumWithout(id, ms[1..], i - 1);
      var rest := ms[..i] + ms[i + 1..];
      assert rest[0] == ms[0] && rest[1..] == ms[1..][..i - 1] + ms[1..][i..];
    }
  }

  lemma {:induction false} SumOfPermutation(id: string, xs: seq<Metric>, ys: seq<Metric>)
    requires multiset(xs) == multiset(ys)
    ensures DeltaSum(id, xs) == DeltaSum(id, ys)
    decreases |xs|
  {
    if xs == [] {
      assert |multiset(ys)| == 0;
    } else {
      assert xs[0] in multiset(ys);
      var i :| 0 <= i < |ys| && ys[i] == xs[0];
      SumWithout(id, ys, i);
      RemoveMatching(xs, ys, i);
      SumOfPermutation(id, xs[1..], ys[..i] + ys[i + 1..]);
    }
  }

  lemma RemoveMatching<T>(xs: seq<T>, ys: seq<T>, i: nat)
    requires multiset(xs) == multiset(ys) && xs != [] && i < |ys| && ys[i] == xs[0]
    ensures multiset(xs[1..]) == multiset(ys[..i] + ys[i + 1..])
  {
    assert xs == [xs[0]] + xs[1..];
    assert ys == ys[..i] + ([ys[i]] + ys[i + 1..]);
    assert multiset(ys) == multiset(ys[..i] + ys[i + 1..]) + multiset{ys[i]};
    assert multiset(xs[1..]) == multiset(xs) - multiset{xs[0]};
  }

  lemma SameElements(xs: seq<Metric>, ys: seq<Metric>)
    requires multiset(xs) == multiset(ys)
    ensures forall m :: m in xs <==> m in ys
  {
    forall m ensures m in xs <==> m in ys {
      assert m in xs <==> m in multiset(xs);
      assert m in ys <==> m in multiset(ys);
    }
  }

  lemma PermutedSum(before: Option<int>, id: string, xs: seq<Metric>, ys: seq<Metric>)
    requires multiset(xs) == multiset(ys)
    ensures Summed(before, id, ys) == Summed(before, id, xs)
  {
    SameElements(xs, ys);
    SumOfPermutation(id, xs, ys);
  }

  lemma PermutedVerified(c: Config, xs: seq<Metric>, ys: seq<Metric>)
    requires multiset(xs) == multiset(ys) && AllAdmissible(c, xs) && VerifiedPrefix(c, xs) == |xs|
    ensures AllAdmissible(c, ys) && VerifiedPrefix(c, ys) == |ys|
  {
    SameElements(xs, ys);
    forall i | 0 <= i < |ys| ensures Admissible(c, ys[i]) && Verified(c, ys[i]) {
      assert ys[i] in xs;
      var j :| 0 <= j < |xs| && xs[j] == ys[i];
      assert Admissible(c, xs[j]) && Verified(c, xs[j]);
    }
  }

  /** Two batches with the same verified metrics in any two orders leave every counter with the same value. */
  lemma {:induction false} OrderOfDeltasIsIrrelevant(c: Config, s: seq<Metric>, xs: seq<Metric>, ys: seq<Metric>,
                                                     id: string)
    requires Sound(s) && AllAdmissible(c, xs) && multiset(xs) == multiset(ys)
    requires VerifiedPrefix(c, xs) == |xs|
    ensures Batch(c, s, ys).outcome == Batch(c, s, xs).outcome == Done
    ensures CounterOf(Batch(c, s, ys).mem, id) == CounterOf(Batch(c, s, xs).mem, id)
  {
    var before := Opening(s, id).total;
    PermutedVerified(c, xs, ys);
    PermutedSum(before, id, xs, ys);
    BatchTotal(c, s, xs, id, before);
    BatchTotal(c, s, ys, id, before);
  }

  lemma BatchTotal(c: Config, s: seq<Metric>, ms: seq<Metric>, id: string, before: Option<int>)
    requires Sound(s) && AllAdmissible(c, ms) && VerifiedPrefix(c, ms) == |ms| && before == Opening(s, id).total
    ensures CounterOf(Batch(c, s, ms).mem, id) == Wrapped(Summed(before, id, ms))
    ensures Batch(c, s, ms).outcome == Done
  {
    BatchEnds(c, s, ms);
    assert ms[..|ms|] == ms;
    BatchCredits(c, s, ms, id, Opening(s, id));
    CreditAllIsSum(Opening(s, id), id, ms);
  }

  // ---- UpsertBatch as a fold of single upserts ----

  lemma {:induction false} BatchEnds(c: Config, s: seq<Metric>, ms: seq<Metric>)
    requires Sound(s) && AllAdmissible(c, ms)
    ensures var n := VerifiedPrefix(c, ms);
            Batch(c, s, ms).outcome == if n == |ms| then Done else Failed(VerifySign(c, ms[n]).error)
    decreases |ms|
  {
    if ms == [] || !Verified(c, ms[0]) {
    } else {
      AdmitSound(c, s, ms[0]);
      BatchEnds(c, Upserted(s, Admit(c, s, ms[0]).value), ms[1..]);
    }
  }

  /** One Upsert call after another, with no flushing. */
  function Singles(c: Config, s: seq<Metric>, ms: seq<Metric>, io: Io): seq<Metric>
    decreases |ms|
  {
    if ms == [] then s else Singles(c, UpsertCall(c, World(s, NoDisk), ms[0], io).0.mem, ms[1..], io)
  }

  lemma {:induction false} BatchIsFold(c: Config, s: seq<Metric>, ms: seq<Metric>, io: Io)
    requires Sound(s) && AllAdmissible(c, ms)
    ensures Batch(c, s, ms).mem == Singles(c, s, ms[..VerifiedPrefix(c, ms)], io)
    decreases |ms|
  {
    if ms == [] || !Verified(c, ms[0]) {
    } else {
      AdmitSound(c, s, ms[0]);
      BatchIsFold(c, Upserted(s, Admit(c, s, ms[0]).value), ms[1..], io);
      var n := VerifiedPrefix(c, ms);
      assert ms[..n][0] == ms[0] && ms[..n][1..] == ms[1..][..n - 1];
    }
  }

  /**
    * The whole effect of an UpsertBatch call: when every signature verifies, the single Upserts of the batch
    * and one flush; otherwise those of the verified prefix, no flush, and the error of the first bad item.
    */
  lemma BatchCallIsPrefixFold(c: Config, w: World, ms: seq<Metric>, io: Io)
    requires Sound(w.mem) && AllAdmissible(c, ms)
    ensures var n := VerifiedPrefix(c, ms);
            var after := w.(mem := Singles(c, w.mem, ms[..n], io));
            BatchCall(c, w, ms, io) == if n == |ms| then (Written(c, after, io), Done)
                                       else (after, Failed(VerifySign(c, ms[n]).error))
  {
    BatchIsFold(c, w.mem, ms, io);
    BatchEnds(c, w.mem, ms);
  }

  /**
    * What the caller's slice holds afterwards at position i: inside the verified prefix a counter carries
    * the running total of its id up to there, duplicates included; everything else is untouched.
    */
  lemma {:induction false} BatchWritesBack(c: Config, s: seq<Metric>, ms: seq<Metric>, i: nat, a: Account)
    requires Sound(s) && AllAdmissible(c, ms) && i < |ms| && Holds(s, ms[i].id, a)
    ensures Batch(c, s, ms).slice[i]
            == if i < VerifiedPrefix(c, ms) && ms[i].mtype == COUNTER
               then ms[i].(delta := Wrapped(CreditAll(a, ms[i].id, ms[..i + 1]).total)) else ms[i]
    decreases |ms|
  {
    if !Verified(c, ms[0]) {
    } else {
      AdmitSound(c, s, ms[0]);
      AdmitCredits(c, s, ms[0], ms[i].id, a);
      var next := Admit(c, s, ms[0]).value;
      var rest := Batch(c, Upserted(s, next), ms[1..]);
      assert Batch(c, s, ms).slice == [ms[0].(delta := next.delta)] + rest.slice;
      assert ms[..i + 1][0] == ms[0] && ms[..i + 1][1..] == ms[1..][..i];
      assert CreditAll(a, ms[i].id, ms[..i + 1]) == CreditAll(Credit(a, ms[i].id, ms[0]), ms[i].id, ms[1..][..i]);
      if i > 0 {
        BatchWritesBack(c, Upserted(s, next), ms[1..], i - 1, Credit(a, ms[i].id, ms[0]));
        assert Batch(c, s, ms).slice[i] == rest.slice[i - 1];
      }
    }
  }

  // ---- Signing the shared array is invisible ----

  predicate Signable(c: Config, m: Metric) { Sign(m, c.signKey, c.env).Ok? }

  /** Equal but for the hashes of metrics whose hash every read computes afresh. */
  ghost predicate SameButHash(c: Config, s: seq<Metric>, t: seq<Metric>) {
    |s| == |t| && forall i :: 0 <= i < |s| ==> s[i] == t[i] || (Signable(c, s[i]) && t[i] == s[i].(hash := t[i].hash))
  }

  lemma SameIndex(c: Config, s: seq<Metric>, t: seq<Metric>, k: Key)
    requires SameButHash(c, s, t)
    ensures IndexOf(s, k) == IndexOf(t, k) && GetCall(c, s, k) == GetCall(c, t, k)
  {
    assert forall i :: 0 <= i < |s| ==> KeyOf(s[i]) == KeyOf(t[i]);
  }

  lemma SameUpserted(c: Config, s: seq<Metric>, t: seq<Metric>, m: Metric)
    requires SameButHash(c, s, t)
    ensures Admit(c, s, m) == Admit(c, t, m)
    ensures SameButHash(c, Upserted(s, m), Upserted(t, m))
  {
    SameIndex(c, s, t, KeyOf(m));
  }

  lemma {:induction false} SameBatch(c: Config, s: seq<Metric>, t: seq<Metric>, ms: seq<Metric>)
    requires SameButHash(c, s, t)
    ensures SameButHash(c, Batch(c, s, ms).mem, Batch(c, t, ms).mem)
    ensures Batch(c, s, ms).slice == Batch(c, t, ms).slice && Batch(c, s, ms).outcome == Batch(c, t, ms).outcome
    decreases |ms|
  {
    if ms == [] {
    } else {
      SameUpserted(c, s, t, ms[0]);
      if Admit(c, s, ms[0]).Ok? {
        var a := Admit(c, s, ms[0]).value;
        SameUpserted(c, s, t, a);
        SameBatch(c, Upserted(s, a), Upserted(t, a), ms[1..]);
      }
    }
  }

  lemma {:induction false} SameRows(c: Config, t: Db.Table, s: seq<Metric>, u: seq<Metric>)
    requires SameButHash(c, s, u)
    ensures Db.FlushRows(t, s) == Db.FlushRows(t, u)
  {
    if s == [] {
    } else {
      var m, n := s[|s| - 1], u[|u| - 1];
      SameRows(c, t, s[..|s| - 1], u[..|u| - 1]);
      assert n == m.(hash := n.hash);
    }
  }

  /** A JSON file may differ in the hashes it records, nothing else on disk can. */
  ghost predicate SameWorld(c: Config, v: World, w: World) {
    SameButHash(c, v.mem, w.mem) && (v.disk == w.disk || (v.disk.File? && w.disk.File?))
  }

  lemma SameMarshal(c: Config, s: seq<Metric>, t: seq<Metric>, before: Option<string>, other: Option<string>, io: Io)
    requires SameButHash(c, s, t)
    ensures Fs.FlushFile(before, s, c.env.floats, io.file).1 == Fs.FlushFile(other, t, c.env.floats, io.file).1
  {
  }

  lemma SameTable(c: Config, s: seq<Metric>, t: seq<Metric>, rows: Db.Table, io: Io)
    requires SameButHash(c, s, t)
    ensures Db.FlushTable(rows, s, io.sql) == Db.FlushTable(rows, t, io.sql)
  {
    SameRows(c, rows, s, t);
    assert forall i :: 0 <= i < |s| ==> ReadingOf(s[i]) == ReadingOf(t[i]);
  }

  lemma SameFlush(c: Config, v: World, w: World, io: Io)
    requires SameWorld(c, v, w)
    ensures var a, b := FlushDisk(v.disk, v.mem, c.env.floats, io), FlushDisk(w.disk, w.mem, c.env.floats, io);
            SameWorld(c, v.(disk := a.0), w.(disk := b.0)) && a.1 == b.1
  {
    match v.disk
    case NoDisk =>
    case Table(rows) => SameTable(c, v.mem, w.mem, rows, io);
    case File(content) => SameMarshal(c, v.mem, w.mem, content, w.disk.content, io);
  }

  lemma SameDeleted(c: Config, s: seq<Metric>, t: seq<Metric>, k: Key)
    requires SameButHash(c, s, t)
    ensures Known(s, k) <==> Known(t, k)
    ensures SameButHash(c, Deleted(s, k), Deleted(t, k))
  {
  }

  lemma SameDelete(c: Config, v: World, w: World, k: Key, io: Io)
    requires SameWorld(c, v, w)
    ensures var a, b := DeleteCall(c, v, k, io), DeleteCall(c, w, k, io); SameWorld(c, a.0, b.0) && a.1 == b.1
  {
    SameDeleted(c, v.mem, w.mem, k);
    if Known(v.mem, k) {
      var disk := (d: Disk) => if d.Table? then Table(Db.DeleteRow(d.rows, k)) else d;
      SameFlush(c, World(Deleted(v.mem, k), disk(v.disk)), World(Deleted(w.mem, k), disk(w.disk)), io);
    }
  }

  lemma SameStep(c: Config, v: World, w: World, op: Op)
    requires SameWorld(c, v, w)
    ensures SameWorld(c, Step(c, v, op).0, Step(c, w, op).0) && Step(c, v, op).1 == Step(c, w, op).1
  {
    match op
    case Upsert(m, io) =>
      SameUpserted(c, v.mem, w.mem, m);
      if Admit(c, v.mem, m).Ok? {
        var a := Admit(c, v.mem, m).value;
        SameUpserted(c, v.mem, w.mem, a);
        SameFlush(c, v.(mem := Upserted(v.mem, a)), w.(mem := Upserted(w.mem, a)), io);
      }
    case UpsertBatch(ms, io) =>
      SameBatch(c, v.mem, w.mem, ms);
      SameFlush(c, v.(mem := Batch(c, v.mem, ms).mem), w.(mem := Batch(c, w.mem, ms).mem), io);
    case Delete(k, io) => SameDelete(c, v, w, k, io);
    case GetBatch =>
    case Tick(io) => SameFlush(c, v, w, io);
  }

  lemma {:induction false} SameRun(c: Config, v: World, w: World, ops: seq<Op>)
    requires SameWorld(c, v, w)
    ensures SameWorld(c, Run(c, v, ops), Run(c, w, ops)) && Outcomes(c, v, ops) == Outcomes(c, w, ops)
    decreases |ops|
  {
    if ops == [] {
    } else {
      SameStep(c, v, w, ops[0]);
      SameRun(c, Step(c, v, ops[0]).0, Step(c, w, ops[0]).0, ops[1..]);
    }
  }

  /**
    * GetBatch signs in the store's own array, yet no later call of any run can tell: every outcome and every
    * Get is as if it had never been called, and Get of a key is always the metric GetBatch lists for it.
    */
  lemma GetBatchIsInvisible(c: Config, w: World, ops: seq<Op>, k: Key)
    ensures var after := Step(c, w, GetBatch).0;
            && Outcomes(c, after, ops) == Outcomes(c, w, ops)
            && GetCall(c, Run(c, after, ops).mem, k) == GetCall(c, Run(c, w, ops).mem, k)
    ensures GetCall(c, w.mem, k)
            == match Lookup(SignedAll(c, w.mem), k) case Some(m) => Ok(m) case None => Err(NotFound)
  {
    var after := Step(c, w, GetBatch).0;
    SameRun(c, w, after, ops);
    SameIndex(c, Run(c, w, ops).mem, Run(c, after, ops).mem, k);
    SignedAllKeeps(c, w.mem);
  }
}
