/** When a whole batch, the form the agent reports in, ends with table and memory in agreement. */
module BatchAgreement {
  import opened Basics
  import opened Metrics
  import opened MemStore
  import opened Server
  import opened Runs
  import opened DbTable
  import opened Agreement
  import Db = DbStore

  lemma AdmittedTyped(c: Config, s: seq<Metric>, m: Metric)
    requires UniqueKeys(s) && Admit(c, s, m).Ok?
    ensures var u := Upserted(s, Admit(c, s, m).value);
            && UniqueKeys(u) && Lookup(u, KeyOf(m)).Some?
            && (WellTyped(Lookup(u, KeyOf(m)).value) <==> WellTyped(m))
            && forall k :: k != KeyOf(m) ==> Lookup(u, k) == Lookup(s, k)
  {
    UpsertRefinesMap(s, Admit(c, s, m).value);
  }

  /** After a whole batch a key has a usable value exactly when the last metric sent for it had one. */
  lemma {:induction false} LastWins(c: Config, s: seq<Metric>, ms: seq<Metric>, k: Key)
    requires UniqueKeys(s) && Batch(c, s, ms).outcome.Done?
    ensures var t, i := Batch(c, s, ms).mem, LastOf(ms, k);
            && UniqueKeys(t)
            && if i < 0 then Lookup(t, k) == Lookup(s, k)
               else Lookup(t, k).Some? && (WellTyped(Lookup(t, k).value) <==> WellTyped(ms[i]))
    decreases |ms|
  {
    if ms == [] {
    } else {
      AdmittedTyped(c, s, ms[0]);
      LastWins(c, Upserted(s, Admit(c, s, ms[0]).value), ms[1..], k);
    }
  }

  /**
    * For every id of the batch: the last metric sent under its key can be stored, and the id has no other type,
    * neither in the store nor in the batch.
    */
  predicate BatchSettles(s: seq<Metric>, ms: seq<Metric>) {
    forall i :: 0 <= i < |ms| ==> ItemSettles(s, ms, i)
  }

  predicate ItemSettles(s: seq<Metric>, ms: seq<Metric>, i: nat)
    requires i < |ms|
  {
    && Storable(ms[LastOf(ms, KeyOf(ms[i]))])
    && !Known(s, Key(OtherType(ms[i].mtype), ms[i].id))
    && forall j :: 0 <= j < |ms| && ms[j].id == ms[i].id ==> ms[j].mtype == ms[i].mtype
  }

  /** Every entry after a batch was stored before and not sent, or has the key of a metric sent. */
  lemma EntryComesFrom(c: Config, s: seq<Metric>, ms: seq<Metric>, x: nat)
    requires UniqueKeys(s) && Batch(c, s, ms).outcome.Done? && x < |Batch(c, s, ms).mem|
    ensures var m := Batch(c, s, ms).mem[x];
            var i := LastOf(ms, KeyOf(m));
            if i < 0 then Lookup(s, KeyOf(m)) == Some(m) else (WellTyped(m) <==> WellTyped(ms[i]))
  {
    var t := Batch(c, s, ms).mem;
    LastWins(c, s, ms, KeyOf(t[x]));
    OnlyMatch(t, x);
  }

  lemma SettledIsStorable(c: Config, s: seq<Metric>, ms: seq<Metric>)
    requires Keepable(s) && Batch(c, s, ms).outcome.Done? && BatchSettles(s, ms)
    ensures AllStorable(Batch(c, s, ms).mem)
  {
    var t := Batch(c, s, ms).mem;
    forall x | 0 <= x < |t| ensures Storable(t[x]) {
      EntryComesFrom(c, s, ms, x);
      var i := LastOf(ms, KeyOf(t[x]));
      if i >= 0 {
        assert ItemSettles(s, ms, i);
      } else {
        assert Storable(s[IndexOf(s, KeyOf(t[x]))]);
      }
    }
  }

  /** One key sent, another key of the same id stored or sent: the two are the same. */
  lemma SettledPair(s: seq<Metric>, ms: seq<Metric>, k: Key, q: Key)
    requires BatchSettles(s, ms) && LastOf(ms, k) >= 0 && k.id == q.id && (Known(s, q) || LastOf(ms, q) >= 0)
    requires q.mtype == GAUGE || q.mtype == COUNTER
    ensures k == q
  {
    var i := LastOf(ms, k);
    assert ItemSettles(s, ms, i);
    assert LastOf(ms, q) >= 0 ==> ms[LastOf(ms, q)].id == ms[i].id;
    assert OtherType(k.mtype) != k.mtype;
  }

  lemma SettledNoClash(c: Config, s: seq<Metric>, ms: seq<Metric>)
    requires Keepable(s) && Batch(c, s, ms).outcome.Done? && BatchSettles(s, ms)
    ensures NoClash(Batch(c, s, ms).mem)
  {
    var t := Batch(c, s, ms).mem;
    SettledIsStorable(c, s, ms);
    forall x, y | 0 <= x < |t| && 0 <= y < |t| && t[x].id == t[y].id ensures t[x].mtype == t[y].mtype {
      EntryComesFrom(c, s, ms, x);
      EntryComesFrom(c, s, ms, y);
      var k, q := KeyOf(t[x]), KeyOf(t[y]);
      if LastOf(ms, k) >= 0 {
        SettledPair(s, ms, k, q);
      } else if LastOf(ms, q) >= 0 {
        SettledPair(s, ms, q, k);
      } else {
        assert s[IndexOf(s, k)].id == s[IndexOf(s, q)].id;
      }
    }
  }

  lemma SettlingIsNeeded(c: Config, s: seq<Metric>, ms: seq<Metric>)
    requires Keepable(s) && Batch(c, s, ms).outcome.Done?
    requires AllStorable(Batch(c, s, ms).mem) && NoClash(Batch(c, s, ms).mem)
    ensures BatchSettles(s, ms)
  {
    var t := Batch(c, s, ms).mem;
    forall i | 0 <= i < |ms| ensures ItemSettles(s, ms, i) {
      var k := KeyOf(ms[i]);
      var other := Key(OtherType(k.mtype), k.id);
      LastWins(c, s, ms, k);
      assert Storable(t[IndexOf(t, k)]);
      OneTypePerId(t, k, other);
      if Known(s, other) {
        BatchKeepsKnown(c, s, ms, other);
      }
      forall j | 0 <= j < |ms| && ms[j].id == ms[i].id ensures ms[j].mtype == ms[i].mtype {
        LastWins(c, s, ms, KeyOf(ms[j]));
        if ms[j].mtype != ms[i].mtype {
          OneTypePerId(t, k, KeyOf(ms[j]));
        }
      }
    }
  }

  lemma BatchTraced(c: Config, s: seq<Metric>, ms: seq<Metric>, t: Db.Table)
    requires UniqueKeys(s) && Traced(s, t)
    ensures UniqueKeys(Batch(c, s, ms).mem) && Traced(Batch(c, s, ms).mem, t)
  {
    BatchUnique(c, s, ms);
    forall n | n in t && n != "" ensures Known(Batch(c, s, ms).mem, Key(t[n].mtype.value, n)) {
      BatchKeepsKnown(c, s, ms, Key(t[n].mtype.value, n));
    }
  }

  /** With working SQL the table agrees with memory after the flush exactly when memory can be put into it. */
  lemma FlushAgreesIff(s: seq<Metric>, t: Db.Table)
    requires UniqueKeys(s) && Traced(s, t)
    ensures Agree(s, Db.FlushTable(t, s, Db.NoFault).0) <==> AllStorable(s) && NoClash(s)
  {
    TracedNotStale(s, t);
    if Db.FlushRows(t, s).Some? {
      CommittedFlushAgreesIff(t, s);
    } else {
      UncommittedDisagrees(s, t);
    }
  }

  /**
    * A batch that returned nil with working SQL ends in agreement exactly when it settles: a condition on the
    * store and the metrics sent, unusable metrics and duplicates included.
    */
  lemma BatchAgreesIff(c: Config, w: World, ms: seq<Metric>, io: Io)
    requires c.writeThrough && Tracked(w) && SqlWorks(io) && BatchCall(c, w, ms, io).1.Done?
    ensures InAgreement(BatchCall(c, w, ms, io).0) <==> BatchSettles(w.mem, ms)
  {
    var t := Batch(c, w.mem, ms).mem;
    BatchTraced(c, w.mem, ms, w.disk.rows);
    FlushAgreesIff(t, w.disk.rows);
    if BatchSettles(w.mem, ms) {
      SettledIsStorable(c, w.mem, ms);
      SettledNoClash(c, w.mem, ms);
    }
    if AllStorable(t) && NoClash(t) {
      SettlingIsNeeded(c, w.mem, ms);
    }
  }

  /** An item that does not fit leaves its mark on the store, whatever usable metrics follow it. */
  lemma {:induction false} UnfitBatchShows(c: Config, s: seq<Metric>, ms: seq<Metric>)
    requires Keepable(s) && AllAdmissible(c, ms) && Batch(c, s, ms).outcome.Done? && !BatchFits(c, s, ms)
    ensures !(AllStorable(Batch(c, s, ms).mem) && NoClash(Batch(c, s, ms).mem))
    decreases |ms|
  {
    var a := Admit(c, s, ms[0]).value;
    AdmittedShape(c, s, ms[0]);
    if Fits(s, ms[0]) {
      FittingKeepsNoClash(s, a);
      UnfitBatchShows(c, Upserted(s, a), ms[1..]);
    } else {
      UnfitStays(c, s, a, ms[1..]);
    }
  }

  lemma UnfitStays(c: Config, s: seq<Metric>, a: Metric, rest: seq<Metric>)
    requires Keepable(s) && WellTyped(a) && !Fits(s, a)
    ensures var t := Batch(c, Upserted(s, a), rest).mem; !(AllStorable(t) && NoClash(t))
  {
    var own, other := KeyOf(a), Key(OtherType(a.mtype), a.id);
    var t := Batch(c, Upserted(s, a), rest).mem;
    UpsertRefinesMap(s, a);
    assert Lookup(Upserted(s, a), own).Some?;
    BatchKeepsKnown(c, Upserted(s, a), rest, own);
    if Known(s, other) {
      KnownStays(s, a, other);
      BatchKeepsKnown(c, Upserted(s, a), rest, other);
      assert NoClash(t) ==> !Known(t, other) by {
        if NoClash(t) {
          OneTypePerId(t, own, other);
        }
      }
    } else {
      assert KeyOf(t[IndexOf(t, own)]) == own;
    }
  }

  /** When all metrics are usable, fitting one after another is exact as well. */
  lemma BatchFitsIff(c: Config, w: World, ms: seq<Metric>, io: Io)
    requires c.writeThrough && Tracked(w) && SqlWorks(io) && AllAdmissible(c, ms) && BatchCall(c, w, ms, io).1.Done?
    ensures InAgreement(BatchCall(c, w, ms, io).0) <==> BatchFits(c, w.mem, ms)
  {
    BatchTraced(c, w.mem, ms, w.disk.rows);
    FlushAgreesIff(Batch(c, w.mem, ms).mem, w.disk.rows);
    if BatchFits(c, w.mem, ms) {
      BatchTracked(c, w.mem, ms, w.disk.rows);
    } else {
      UnfitBatchShows(c, w.mem, ms);
    }
  }

  /** Without a sign key a gauge may first come without a Value: it does not fit, but the batch settles. */
  lemma LaterGaugeMends(c: Config, io: Io)
    requires c.writeThrough && c.signKey == "" && SqlWorks(io)
    ensures var empty, full := Metric("x", GAUGE, None, None, ""), Metric("x", GAUGE, None, Some(0), "");
            var w, ms := World([], Table(map[])), [empty, full];
            && BatchCall(c, w, ms, io).1.Done? && !BatchFits(c, w.mem, ms)
            && BatchSettles(w.mem, ms) && InAgreement(BatchCall(c, w, ms, io).0)
  {
    var empty, full := Metric("x", GAUGE, None, None, ""), Metric("x", GAUGE, None, Some(0), "");
    var w, ms := World([], Table(map[])), [empty, full];
    assert ms[1..] == [full] && [full][1..] == [];
    assert Admit(c, [], empty) == Ok(empty) && Upserted([], empty) == [empty];
    assert Batch(c, [empty], [full]).outcome.Done?;
    Db.AsciiIsText("x");
    assert Db.Width("x") <= 1;
    assert LastOf(ms, KeyOf(full)) == 1;
    assert BatchSettles(w.mem, ms);
    BatchAgreesIff(c, w, ms, io);
  }
}
