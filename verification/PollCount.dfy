/**
  * Many agents and one server as a state machine. Each agent scans, reports its store as one signed batch
  * and then deletes PollCount; a batch on its way is delivered once or lost, with or without the agent
  * learning of it. Each step is atomic, as the Go code assumes without locking.
  */
module PollCount {
  import opened Basics
  import opened Metrics
  import opened MemStore
  import opened Server
  import opened Runs
  import opened Report

  const POLL := "PollCount"
  const POLL_KEY := Key(COUNTER, POLL)

  /** What every scan puts into the agent's store, in place of whatever count was there. */
  const ONE_POLL := Metric(POLL, COUNTER, Some(1), None, "")

  /** Waiting: between reports. Reported: Report has returned, the delete has not happened yet. */
  datatype Phase = Waiting | Reported

  datatype Agent = Agent(mem: seq<Metric>, phase: Phase, signKey: string)

  /** credited is the server's bookkeeping of PollCount over the batches delivered so far. */
  datatype State = State(agents: seq<Agent>, network: seq<seq<Metric>>, server: World, credited: Account)

  datatype Move =
    | Scan(agent: nat, runtime: seq<Metric>, workload: seq<Metric>)
    | Report(agent: nat, reachesNetwork: bool)
    | DeletePoll(agent: nat)
    | Deliver(message: nat, io: Io)
    | Lose(message: nat)

  /** Scan: one batch of gauges that ends with PollCount = 1, then a second batch of gauges. */
  function Scanned(s: seq<Metric>, runtime: seq<Metric>, workload: seq<Metric>): seq<Metric> {
    UpsertedAll(UpsertedAll(s, runtime + [ONE_POLL]), workload)
  }

  predicate OnlyGauges(ms: seq<Metric>) { forall i :: 0 <= i < |ms| ==> ms[i].mtype == GAUGE && ms[i].value.Some? }

  function Without<T>(s: seq<T>, i: nat): seq<T>
    requires i < |s|
  {
    s[..i] + s[i + 1..]
  }

  predicate CanScan(s: State, a: nat, runtime: seq<Metric>, workload: seq<Metric>) {
    a < |s.agents| && OnlyGauges(runtime) && OnlyGauges(workload)
  }

  predicate CanReport(s: State, a: nat) { a < |s.agents| && s.agents[a].phase.Waiting? }

  function BatchOf(c: Config, a: Agent): Result<seq<Metric>, Error> { SignedBatch(a.signKey, c.env, a.mem) }

  /** A move that is not possible in the state changes nothing. */
  function Next(c: Config, s: State, move: Move): State {
    match move
    case Scan(a, runtime, workload) =>
      if CanScan(s, a, runtime, workload) then
        s.(agents := s.agents[a := s.agents[a].(mem := Scanned(s.agents[a].mem, runtime, workload))])
      else s
    case Report(a, reaches) =>
      if CanReport(s, a) then
        var batch := BatchOf(c, s.agents[a]);
        s.(agents := s.agents[a := s.agents[a].(phase := Reported)],
           network := if batch.Ok? && reaches then s.network + [batch.value] else s.network)
      else s
    case DeletePoll(a) =>
      if a < |s.agents| && s.agents[a].phase.Reported? then
        s.(agents := s.agents[a := s.agents[a].(mem := Deleted(s.agents[a].mem, POLL_KEY), phase := Waiting)])
      else s
    case Deliver(i, io) =>
      if i < |s.network| then
        s.(network := Without(s.network, i),
           server := BatchCall(c, s.server, s.network[i], io).0,
           credited := CreditAll(s.credited, POLL, s.network[i][..VerifiedPrefix(c, s.network[i])]))
      else s
    case Lose(i) => if i < |s.network| then s.(network := Without(s.network, i)) else s
  }

  function After(c: Config, s: State, moves: seq<Move>): State
    decreases |moves|
  {
    if moves == [] then s else After(c, Next(c, s, moves[0]), moves[1..])
  }

  // ---- Scans made, and scans dropped on the way ----

  function ScanOf(s: State, move: Move): nat {
    if move.Scan? && CanScan(s, move.agent, move.runtime, move.workload) then 1 else 0
  }

  /** The scans that the possible moves of a run make. */
  function Scans(c: Config, s: State, moves: seq<Move>): nat
    decreases |moves|
  {
    if moves == [] then 0 else ScanOf(s, moves[0]) + Scans(c, Next(c, s, moves[0]), moves[1..])
  }

  /**
    * The scans one move drops: a scan made after a report and before its delete, or on top of a count that
    * still waits; a report that is not signed or not sent; a message lost, or rejected before its count.
    */
  function Drop(c: Config, s: State, move: Move): nat {
    match move
    case Scan(a, runtime, workload) =>
      if CanScan(s, a, runtime, workload) && (s.agents[a].phase.Reported? || Known(s.agents[a].mem, POLL_KEY)) then 1
      else 0
    case Report(a, reaches) =>
      if CanReport(s, a) && Known(s.agents[a].mem, POLL_KEY) && !(reaches && BatchOf(c, s.agents[a]).Ok?) then 1
      else 0
    case DeletePoll(_) => 0
    case Deliver(i, _) =>
      if i < |s.network| && VerifiedPrefix(c, s.network[i]) <= IndexOf(s.network[i], POLL_KEY) then 1 else 0
    case Lose(i) => if i < |s.network| && Known(s.network[i], POLL_KEY) then 1 else 0
  }

  function AllDropped(c: Config, s: State, moves: seq<Move>): nat
    decreases |moves|
  {
    if moves == [] then 0 else Drop(c, s, moves[0]) + AllDropped(c, Next(c, s, moves[0]), moves[1..])
  }

  // ---- Invariant ----

  /** A sound store whose only counter is PollCount, with delta 1: the agent's store replaces, never adds. */
  ghost predicate AgentStore(s: seq<Metric>) {
    Sound(s) && forall i :: 0 <= i < |s| && s[i].mtype == COUNTER ==> s[i].id == POLL && s[i].delta == Some(1)
  }

  /** Scans that may still reach the server: a count that no report has taken yet. */
  function Pending(a: Agent): nat { if a.phase.Waiting? && Known(a.mem, POLL_KEY) then 1 else 0 }

  function AllPending(agents: seq<Agent>): nat {
    if agents == [] then 0 else Pending(agents[0]) + AllPending(agents[1..])
  }

  function Carries(message: seq<Metric>): int { DeltaSum(POLL, message) }

  function InFlight(network: seq<seq<Metric>>): int {
    if network == [] then 0 else Carries(network[0]) + InFlight(network[1..])
  }

  function Amount(a: Account): int { if a.total.Some? then a.total.value else 0 }

  /** Every scan is accounted for: credited to the server, on its way, waiting in an agent, or dropped. */
  ghost predicate Invariant(base: int, scans: nat, dropped: nat, s: State) {
    && Sound(s.server.mem) && Holds(s.server.mem, POLL, s.credited)
    && (forall a :: 0 <= a < |s.agents| ==> AgentStore(s.agents[a].mem))
    && (forall i :: 0 <= i < |s.network| ==> AgentStore(s.network[i]))
    && base <= Amount(s.credited)
    && Amount(s.credited) - base + InFlight(s.network) + AllPending(s.agents) + dropped == scans
  }

  // ---- Sums over agents and messages ----

  lemma {:induction false} PendingUpdate(agents: seq<Agent>, a: nat, next: Agent)
    requires a < |agents|
    ensures AllPending(agents[a := next]) == AllPending(agents) - Pending(agents[a]) + Pending(next)
  {
    if a == 0 {
      assert agents[0 := next][1..] == agents[1..];
    } else {
      PendingUpdate(agents[1..], a - 1, next);
      assert agents[a := next][1..] == agents[1..][a - 1 := next];
    }
  }

  lemma {:induction false} InFlightAppend(network: seq<seq<Metric>>, message: seq<Metric>)
    ensures InFlight(network + [message]) == InFlight(network) + Carries(message)
  {
    if network == [] {
      assert [message][1..] == [];
    } else {
      InFlightAppend(network[1..], message);
      assert (network + [message])[1..] == network[1..] + [message];
    }
  }

  lemma {:induction false} InFlightWithout(network: seq<seq<Metric>>, i: nat)
    requires i < |network|
    ensures InFlight(Without(network, i)) == InFlight(network) - Carries(network[i])
  {
    if i == 0 {
      assert Without(network, 0) == network[1..];
    } else {
      InFlightWithout(network[1..], i - 1);
      assert Without(network, i)[0] == network[0];
      assert Without(network, i)[1..] == Without(network[1..], i - 1);
    }
  }

  // ---- What a store of an agent can carry ----

  lemma {:induction false} SumWithoutPoll(s: seq<Metric>)
    requires AgentStore(s) && !Known(s, POLL_KEY)
    ensures Carries(s) == 0
  {
    if s == [] {
    } else {
      assert KeyOf(s[0]) != POLL_KEY;
      assert forall i :: 0 <= i < |s[1..]| ==> s[1..][i] == s[i + 1];
      SumWithoutPoll(s[1..]);
    }
  }

  /** A store holds PollCount at most once, so it carries one scan or none. */
  lemma CarriesOneOrNone(s: seq<Metric>)
    requires AgentStore(s)
    ensures Carries(s) == if Known(s, POLL_KEY) then 1 else 0
  {
    if Known(s, POLL_KEY) {
      var i := IndexOf(s, POLL_KEY);
      var rest := Deleted(s, POLL_KEY);
      SumWithout(POLL, s, i);
      AgentStoreDeleted(s);
      DeleteLookup(s, POLL_KEY, POLL_KEY);
      SumWithoutPoll(rest);
    } else {
      SumWithoutPoll(s);
    }
  }

  lemma AgentStoreDeleted(s: seq<Metric>)
    requires AgentStore(s)
    ensures AgentStore(Deleted(s, POLL_KEY))
  {
  }

  lemma AgentStoreUpserted(s: seq<Metric>, m: Metric)
    requires AgentStore(s) && (m == ONE_POLL || (m.mtype == GAUGE && m.value.Some?))
    ensures AgentStore(Upserted(s, m))
  {
  }

  lemma {:induction false} AgentStoreUpsertedAll(s: seq<Metric>, ms: seq<Metric>)
    requires AgentStore(s)
    requires forall i :: 0 <= i < |ms| ==> ms[i] == ONE_POLL || (ms[i].mtype == GAUGE && ms[i].value.Some?)
    ensures AgentStore(UpsertedAll(s, ms))
    decreases |ms|
  {
    if ms == [] {
    } else {
      AgentStoreUpserted(s, ms[0]);
      AgentStoreUpsertedAll(Upserted(s, ms[0]), ms[1..]);
    }
  }

  lemma SignedStore(key: string, env: Env, s: seq<Metric>)
    requires AgentStore(s) && SignedBatch(key, env, s).Ok?
    ensures var batch := SignedBatch(key, env, s).value; AgentStore(batch) && Carries(batch) == Carries(s)
  {
    SignedBatchShape(key, env, s);
    var batch := SignedBatch(key, env, s).value;
    assert forall i :: 0 <= i < |s| ==> KeyOf(batch[i]) == KeyOf(s[i]) && ReadingOf(batch[i]) == ReadingOf(s[i]);
    assert forall k :: IndexOf(batch, k) == IndexOf(s, k);
    CarriesOneOrNone(s);
    CarriesOneOrNone(batch);
  }

  /**
    * After a scan every gauge collected reads its last collected value, PollCount reads 1, and every other key
    * reads as before.
    */
  lemma ScanReads(s: seq<Metric>, runtime: seq<Metric>, workload: seq<Metric>, k: Key)
    requires UniqueKeys(s) && OnlyGauges(runtime) && OnlyGauges(workload)
    ensures var now, i, j := Lookup(Scanned(s, runtime, workload), k), LastOf(runtime, k), LastOf(workload, k);
            if j >= 0 then now.Some? && ReadingOf(now.value) == Level(workload[j].value.value)
            else if i >= 0 then now.Some? && ReadingOf(now.value) == Level(runtime[i].value.value)
            else if k == POLL_KEY then now.Some? && ReadingOf(now.value) == Total(1)
            else now == Lookup(s, k)
  {
    var middle := UpsertedAll(s, runtime + [ONE_POLL]);
    UpsertedAllConcat(s, runtime, [ONE_POLL]);
    UpsertedAllReads(s, runtime, k);
    UpsertedAllReads(UpsertedAll(s, runtime), [ONE_POLL], k);
    UpsertedAllReads(middle, workload, k);
  }

  /** The first n metrics of a message carry its scan when PollCount is among them. */
  lemma PrefixCarries(s: seq<Metric>, n: nat)
    requires AgentStore(s) && n <= |s|
    ensures Carries(s[..n]) == if 0 <= IndexOf(s, POLL_KEY) < n then 1 else 0
  {
    CarriesOneOrNone(s[..n]);
    var i, j := IndexOf(s, POLL_KEY), IndexOf(s[..n], POLL_KEY);
    assert 0 <= i < n ==> s[..n][i] == s[i];
    assert j >= 0 ==> s[j] == s[..n][j];
  }

  // ---- The invariant is kept ----

  lemma ScanKeeps(c: Config, base: int, scans: nat, dropped: nat, s: State, move: Move)
    requires Invariant(base, scans, dropped, s) && move.Scan?
    ensures Invariant(base, scans + ScanOf(s, move), dropped + Drop(c, s, move), Next(c, s, move))
  {
    var a, runtime, workload := move.agent, move.runtime, move.workload;
    if CanScan(s, a, runtime, workload) {
      var agent := s.agents[a];
      ScannedStore(agent.mem, runtime, workload);
      PendingUpdate(s.agents, a, agent.(mem := Scanned(agent.mem, runtime, workload)));
    }
  }

  lemma {:induction false} KnownAfter(s: seq<Metric>, ms: seq<Metric>, k: Key)
    requires UniqueKeys(s) && (Known(s, k) || exists i :: 0 <= i < |ms| && KeyOf(ms[i]) == k)
    ensures Known(UpsertedAll(s, ms), k)
    decreases |ms|
  {
    if ms == [] {
    } else {
      UpsertRefinesMap(s, ms[0]);
      var t := Upserted(s, ms[0]);
      assert KeyOf(ms[0]) == k ==> Lookup(t, k).Some?;
      assert Known(s, k) ==> Lookup(t, k).Some?;
      assert forall i :: 1 <= i < |ms| ==> ms[i] == ms[1..][i - 1];
      KnownAfter(t, ms[1..], k);
    }
  }

  lemma ScannedStore(s: seq<Metric>, runtime: seq<Metric>, workload: seq<Metric>)
    requires AgentStore(s) && OnlyGauges(runtime) && OnlyGauges(workload)
    ensures AgentStore(Scanned(s, runtime, workload)) && Known(Scanned(s, runtime, workload), POLL_KEY)
  {
    var first := UpsertedAll(s, runtime + [ONE_POLL]);
    AgentStoreUpsertedAll(s, runtime + [ONE_POLL]);
    AgentStoreUpsertedAll(first, workload);
    assert KeyOf((runtime + [ONE_POLL])[|runtime|]) == POLL_KEY;
    KnownAfter(s, runtime + [ONE_POLL], POLL_KEY);
    KnownAfter(first, workload, POLL_KEY);
  }

  lemma ReportKeeps(c: Config, base: int, scans: nat, dropped: nat, s: State, a: nat, reaches: bool)
    requires Invariant(base, scans, dropped, s)
    ensures Invariant(base, scans, dropped + Drop(c, s, Report(a, reaches)), Next(c, s, Report(a, reaches)))
  {
    if CanReport(s, a) {
      var agent, batch := s.agents[a], BatchOf(c, s.agents[a]);
      PendingUpdate(s.agents, a, agent.(phase := Reported));
      CarriesOneOrNone(agent.mem);
      if batch.Ok? {
        SignedStore(agent.signKey, c.env, agent.mem);
        InFlightAppend(s.network, batch.value);
      }
    }
  }

  lemma DeletePollKeeps(c: Config, base: int, scans: nat, dropped: nat, s: State, a: nat)
    requires Invariant(base, scans, dropped, s)
    ensures Invariant(base, scans, dropped, Next(c, s, DeletePoll(a)))
  {
    if a < |s.agents| && s.agents[a].phase.Reported? {
      var agent := s.agents[a];
      AgentStoreDeleted(agent.mem);
      DeleteLookup(agent.mem, POLL_KEY, POLL_KEY);
      PendingUpdate(s.agents, a, agent.(mem := Deleted(agent.mem, POLL_KEY), phase := Waiting));
    }
  }

  lemma NetworkWithout(network: seq<seq<Metric>>, i: nat)
    requires i < |network| && forall j :: 0 <= j < |network| ==> AgentStore(network[j])
    ensures forall j :: 0 <= j < |Without(network, i)| ==> AgentStore(Without(network, i)[j])
    ensures InFlight(Without(network, i)) == InFlight(network) - Carries(network[i])
    ensures Carries(network[i]) == if Known(network[i], POLL_KEY) then 1 else 0
  {
    InFlightWithout(network, i);
    CarriesOneOrNone(network[i]);
  }

  lemma CreditOfMessage(a: Account, message: seq<Metric>, n: nat)
    requires AgentStore(message) && n <= |message|
    ensures Amount(CreditAll(a, POLL, message[..n])) == Amount(a) + if 0 <= IndexOf(message, POLL_KEY) < n then 1 else 0
  {
    PrefixCarries(message, n);
    CreditAllIsSum(a, POLL, message[..n]);
    NoCountsNoSum(POLL, message[..n]);
  }

  lemma DeliverKeeps(c: Config, base: int, scans: nat, dropped: nat, s: State, i: nat, io: Io)
    requires Invariant(base, scans, dropped, s)
    ensures Invariant(base, scans, dropped + Drop(c, s, Deliver(i, io)), Next(c, s, Deliver(i, io)))
  {
    if i < |s.network| {
      var message := s.network[i];
      NetworkWithout(s.network, i);
      CreditOfMessage(s.credited, message, VerifiedPrefix(c, message));
      BatchSound(c, s.server.mem, message);
      BatchCredits(c, s.server.mem, message, POLL, s.credited);
    }
  }

  lemma LoseKeeps(c: Config, base: int, scans: nat, dropped: nat, s: State, i: nat)
    requires Invariant(base, scans, dropped, s)
    ensures Invariant(base, scans, dropped + Drop(c, s, Lose(i)), Next(c, s, Lose(i)))
  {
    if i < |s.network| {
      NetworkWithout(s.network, i);
    }
  }

  lemma {:induction false} MoveKeeps(c: Config, base: int, scans: nat, dropped: nat, s: State, move: Move)
    requires Invariant(base, scans, dropped, s)
    ensures Invariant(base, scans + ScanOf(s, move), dropped + Drop(c, s, move), Next(c, s, move))
  {
    match move
    case Scan(_, _, _) => ScanKeeps(c, base, scans, dropped, s, move);
    case Report(a, reaches) => ReportKeeps(c, base, scans, dropped, s, a, reaches);
    case DeletePoll(a) => DeletePollKeeps(c, base, scans, dropped, s, a);
    case Deliver(i, io) => DeliverKeeps(c, base, scans, dropped, s, i, io);
    case Lose(i) => LoseKeeps(c, base, scans, dropped, s, i);
  }

  lemma {:induction false} MovesKeep(c: Config, base: int, scans: nat, dropped: nat, s: State, moves: seq<Move>)
    requires Invariant(base, scans, dropped, s)
    ensures Invariant(base, scans + Scans(c, s, moves), dropped + AllDropped(c, s, moves), After(c, s, moves))
    decreases |moves|
  {
    if moves == [] {
    } else {
      MoveKeeps(c, base, scans, dropped, s, moves[0]);
      MovesKeep(c, base, scans + ScanOf(s, moves[0]), dropped + Drop(c, s, moves[0]), Next(c, s, moves[0]), moves[1..]);
    }
  }

  // ---- What else a move does ----

  /** The move changes the store of this agent. */
  predicate Moves(s: State, move: Move, b: nat) {
    match move
    case Scan(a, runtime, workload) => a == b && CanScan(s, a, runtime, workload)
    case DeletePoll(a) => a == b && a < |s.agents| && s.agents[a].phase.Reported?
    case _ => false
  }

  /**
    * A scan does to the store of its agent what ScanReads says, a delete takes PollCount alone out of it, and no
    * move touches another store. A report waits for its delete, and only a delivery reaches the server.
    */
  lemma MoveReads(c: Config, s: State, move: Move, b: nat, k: Key)
    requires b < |s.agents| && UniqueKeys(s.agents[b].mem)
    ensures var was, next := s.agents[b], Next(c, s, move);
            && |next.agents| == |s.agents| && next.agents[b].signKey == was.signKey
            && (!Moves(s, move, b) ==> next.agents[b].mem == was.mem)
            && (move.DeletePoll? && Moves(s, move, b) ==>
                  Lookup(next.agents[b].mem, k) == (if k == POLL_KEY then None else Lookup(was.mem, k)))
            && (move.Scan? && Moves(s, move, b) ==>
                  next.agents[b].mem == Scanned(was.mem, move.runtime, move.workload))
            && (next.agents[b].phase.Reported? <==>
                if move.Report? && move.agent == b then true
                else if move.DeletePoll? && move.agent == b then false
                else was.phase.Reported?)
            && (!move.Deliver? ==> next.server == s.server && next.credited == s.credited)
  {
    DeleteLookup(s.agents[b].mem, POLL_KEY, k);
  }

  /** A delivered batch is handled by the server as any other, and is gone from the network, as a lost one is. */
  lemma DeliveryReads(c: Config, s: State, i: nat, io: Io)
    requires i < |s.network|
    ensures var next := Next(c, s, Deliver(i, io));
            && next.server == BatchCall(c, s.server, s.network[i], io).0
            && next.network == s.network[..i] + s.network[i + 1..] == Next(c, s, Lose(i)).network
            && next.agents == s.agents && Next(c, s, Lose(i)).server == s.server
  {
  }

  // ---- Main results ----

  /** Any number of agents with empty stores, nothing on its way, and a server with any sound store. */
  ghost predicate Start(s: State) {
    && Sound(s.server.mem) && s.credited == Opening(s.server.mem, POLL)
    && s.network == [] && forall a :: 0 <= a < |s.agents| ==> s.agents[a].mem == [] && s.agents[a].phase.Waiting?
  }

  lemma {:induction false} NothingPending(agents: seq<Agent>)
    requires forall a :: 0 <= a < |agents| ==> agents[a].mem == []
    ensures AllPending(agents) == 0
  {
    if agents == [] {
    } else {
      NothingPending(agents[1..]);
    }
  }

  lemma {:induction false} InFlightNonNegative(network: seq<seq<Metric>>)
    requires forall i :: 0 <= i < |network| ==> AgentStore(network[i])
    ensures InFlight(network) >= 0
  {
    if network == [] {
    } else {
      CarriesOneOrNone(network[0]);
      InFlightNonNegative(network[1..]);
    }
  }

  function Growth(c: Config, s: State, moves: seq<Move>): int {
    Amount(After(c, s, moves).credited) - Amount(s.credited)
  }

  /**
    * In every interleaving each scan has exactly one fate: counted by the server, in a message on its way,
    * waiting in its agent's store, or dropped by one of the moves. What the server stores is the wrapped count.
    */
  lemma EveryScanIsAccountedFor(c: Config, s: State, moves: seq<Move>)
    requires Start(s)
    ensures var after := After(c, s, moves);
            && Growth(c, s, moves) + InFlight(after.network) + AllPending(after.agents) + AllDropped(c, s, moves)
               == Scans(c, s, moves)
            && Growth(c, s, moves) >= 0 && InFlight(after.network) >= 0
            && CounterOf(after.server.mem, POLL) == Wrapped(after.credited.total)
  {
    NothingPending(s.agents);
    MovesKeep(c, Amount(s.credited), 0, 0, s, moves);
    InFlightNonNegative(After(c, s, moves).network);
  }

  /** Every scan is counted exactly when no move dropped one and none is on its way or waiting. */
  lemma AllScansCountedIff(c: Config, s: State, moves: seq<Move>)
    requires Start(s)
    ensures var after := After(c, s, moves);
            Growth(c, s, moves) == Scans(c, s, moves)
            <==> AllDropped(c, s, moves) == 0 && InFlight(after.network) == 0 && AllPending(after.agents) == 0
  {
    EveryScanIsAccountedFor(c, s, moves);
  }

  /** No scan is counted twice: the unbounded count grows by at least 0 and at most the number of scans. */
  lemma CountedAtMostOnce(c: Config, s: State, moves: seq<Move>)
    requires Start(s)
    ensures 0 <= Growth(c, s, moves) <= Scans(c, s, moves)
  {
    EveryScanIsAccountedFor(c, s, moves);
  }

  /** Short of int64 overflow the stored number itself never exceeds its start plus the number of scans. */
  lemma StoredCountIsBounded(c: Config, s: State, moves: seq<Move>)
    requires Start(s) && Amount(s.credited) + Scans(c, s, moves) < TWO_63
    ensures var stored := CounterOf(After(c, s, moves).server.mem, POLL);
            stored.Some? ==> Amount(s.credited) <= stored.value <= Amount(s.credited) + Scans(c, s, moves)
  {
    CountedAtMostOnce(c, s, moves);
    EveryScanIsAccountedFor(c, s, moves);
  }

  lemma OneScanDelivered(c: Config, io: Io)
    requires c.signKey == ""
    ensures BatchCall(c, World([], NoDisk), [ONE_POLL], io).0.mem == [ONE_POLL]
  {
    var one := [ONE_POLL];
    assert Admit(c, [], ONE_POLL) == Ok(ONE_POLL);
    assert Upserted([], ONE_POLL) == one && one[1..] == [];
    assert Batch(c, one, []) == BatchRun(one, [], Done);
    assert Batch(c, [], one).mem == one && Batch(c, [], one).outcome == Done;
  }

  lemma OneScanStored(s: seq<Metric>)
    requires s == [] || s == [ONE_POLL]
    ensures Scanned(s, [], []) == [ONE_POLL]
  {
    var one := [ONE_POLL];
    assert [] + one == one && one[1..] == [];
    assert Upserted(s, ONE_POLL) == one;
    assert UpsertedAll(s, one) == UpsertedAll(one, []);
  }

  /** One agent that has nothing stored, or one scan, and the server it reports to. */
  function Lone(mem: seq<Metric>, phase: Phase, network: seq<seq<Metric>>): State {
    State([Agent(mem, phase, "")], network, World([], NoDisk), Account(None, None))
  }

  lemma LoneMoves(c: Config)
    requires c.signKey == ""
    ensures Next(c, Lone([], Waiting, []), Scan(0, [], [])) == Lone([ONE_POLL], Waiting, [])
    ensures Next(c, Lone([ONE_POLL], Waiting, []), Scan(0, [], [])) == Lone([ONE_POLL], Waiting, [])
    ensures Next(c, Lone([ONE_POLL], Waiting, []), Report(0, true)) == Lone([ONE_POLL], Reported, [[ONE_POLL]])
  {
    var one := [ONE_POLL];
    OneScanStored([]);
    OneScanStored(one);
    assert one[..0] == [] && SignedBatch("", c.env, one[..0]) == Ok([]);
    assert Sign(one[0], "", c.env) == Ok("") && [] + [ONE_POLL.(hash := "")] == one;
    assert SignedBatch("", c.env, one) == Ok(one);
    assert Next(c, Lone(one, Waiting, []), Report(0, true)).network == [one];
  }

  lemma FirstMove(c: Config, s: State, move: Move, rest: seq<Move>)
    ensures After(c, s, [move] + rest) == After(c, Next(c, s, move), rest)
    ensures Scans(c, s, [move] + rest) == ScanOf(s, move) + Scans(c, Next(c, s, move), rest)
  {
  }

  lemma MergedRun(c: Config, io: Io)
    requires c.signKey == ""
    ensures var s, scan := Lone([], Waiting, []), Scan(0, [], []);
            var moves := [scan] + ([scan] + ([Report(0, true)] + ([Deliver(0, io)] + [])));
            && After(c, s, moves) == Next(c, Lone([ONE_POLL], Reported, [[ONE_POLL]]), Deliver(0, io))
            && Scans(c, s, moves) == 2
  {
    var one := [ONE_POLL];
    var scan, report, deliver := Scan(0, [], []), Report(0, true), Deliver(0, io);
    LoneMoves(c);
    FirstMove(c, Lone([], Waiting, []), scan, [scan] + ([report] + ([deliver] + [])));
    FirstMove(c, Lone(one, Waiting, []), scan, [report] + ([deliver] + []));
    FirstMove(c, Lone(one, Waiting, []), report, [deliver] + []);
    FirstMove(c, Lone(one, Reported, [one]), deliver, []);
  }

  /** The bound is all there is: two scans before one report are counted once. */
  lemma ScansCanBeMerged(env: Env, io: Io)
    ensures var c, s := Config(env, "", true, true), Lone([], Waiting, []);
            var moves := [Scan(0, [], []), Scan(0, [], []), Report(0, true), Deliver(0, io)];
            Start(s) && Scans(c, s, moves) == 2 && CounterOf(After(c, s, moves).server.mem, POLL) == Some(1)
  {
    var c, one, scan := Config(env, "", true, true), [ONE_POLL], Scan(0, [], []);
    assert [scan, scan, Report(0, true), Deliver(0, io)]
           == [scan] + ([scan] + ([Report(0, true)] + ([Deliver(0, io)] + [])));
    MergedRun(c, io);
    OneScanDelivered(c, io);
    assert IndexOf(one, POLL_KEY) == 0;
  }
}
