/**
  * internal/storage/memstore: a slice of metrics searched by (type, id). The first half says what the
  * operations do to the sequence of stored metrics; the class works on the backing array as the Go code does.
  */
module MemStore {
  import opened Basics
  import opened Metrics

  // ---- Specification on sequences ----

  /** Index of the first metric with the key, -1 when there is none. */
  function IndexOf(s: seq<Metric>, k: Key): (i: int)
    ensures -1 <= i < |s|
    ensures i >= 0 ==> KeyOf(s[i]) == k
    ensures forall j :: 0 <= j < (if i < 0 then |s| else i) ==> KeyOf(s[j]) != k
  {
    if s == [] then -1
    else if KeyOf(s[0]) == k then 0
    else
      var i := IndexOf(s[1..], k);
      assert forall j :: 1 <= j < |s| ==> s[j] == s[1..][j - 1];
      if i < 0 then -1 else i + 1
  }

  predicate Known(s: seq<Metric>, k: Key) { IndexOf(s, k) >= 0 }

  function Lookup(s: seq<Metric>, k: Key): Option<Metric> {
    var i := IndexOf(s, k);
    if i < 0 then None else Some(s[i])
  }

  /** What Upsert leaves in an existing entry: the new hash and the field the type selects. */
  function Merge(stored: Metric, m: Metric): Metric {
    if m.mtype == GAUGE then stored.(hash := m.hash, value := m.value)
    else if m.mtype == COUNTER then stored.(hash := m.hash, delta := m.delta)
    else stored.(hash := m.hash)
  }

  function Upserted(s: seq<Metric>, m: Metric): seq<Metric> {
    var i := IndexOf(s, KeyOf(m));
    if i < 0 then s + [m] else s[i := Merge(s[i], m)]
  }

  function UpsertedAll(s: seq<Metric>, ms: seq<Metric>): seq<Metric>
    decreases |ms|
  {
    if ms == [] then s else UpsertedAll(Upserted(s, ms[0]), ms[1..])
  }

  /** Position of the last metric of a batch with the key, -1 when it has none. */
  function LastOf(ms: seq<Metric>, k: Key): (i: int)
    ensures -1 <= i < |ms|
    ensures i >= 0 ==> KeyOf(ms[i]) == k
    ensures forall j :: i < j < |ms| ==> KeyOf(ms[j]) != k
  {
    if ms == [] then -1
    else
      var i := LastOf(ms[1..], k);
      assert forall j :: 1 <= j < |ms| ==> ms[j] == ms[1..][j - 1];
      if i >= 0 then i + 1 else if KeyOf(ms[0]) == k then 0 else -1
  }

  function Deleted(s: seq<Metric>, k: Key): seq<Metric> {
    var i := IndexOf(s, k);
    if i < 0 then s else s[..i] + s[i + 1..]
  }

  // ---- The insertion-ordered map the sequence stands for ----

  ghost predicate UniqueKeys(s: seq<Metric>) {
    forall i, j :: 0 <= i < j < |s| ==> KeyOf(s[i]) != KeyOf(s[j])
  }

  function Keys(s: seq<Metric>): seq<Key> { seq(|s|, i requires 0 <= i < |s| => KeyOf(s[i])) }

  /** With unique keys Find has only one possible answer. */
  lemma OnlyMatch(s: seq<Metric>, i: int)
    requires UniqueKeys(s) && 0 <= i < |s|
    ensures IndexOf(s, KeyOf(s[i])) == i
    ensures Lookup(s, KeyOf(s[i])) == Some(s[i])
  {
  }

  /** Upsert changes the entry of its own key only, keeps every position, and appends a new key last. */
  lemma UpsertRefinesMap(s: seq<Metric>, m: Metric)
    requires UniqueKeys(s)
    ensures UniqueKeys(Upserted(s, m))
    ensures Keys(Upserted(s, m)) == if Known(s, KeyOf(m)) then Keys(s) else Keys(s) + [KeyOf(m)]
    ensures forall k :: Lookup(Upserted(s, m), k) ==
              if k != KeyOf(m) then Lookup(s, k)
              else if Known(s, k) then Some(Merge(Lookup(s, k).value, m)) else Some(m)
  {
    var t := Upserted(s, m);
    forall k ensures Lookup(t, k) ==
                if k != KeyOf(m) then Lookup(s, k)
                else if Known(s, k) then Some(Merge(Lookup(s, k).value, m)) else Some(m)
    {
      var i := if Known(s, k) then IndexOf(s, k) else if k == KeyOf(m) then |s| else -1;
      if i >= 0 {
        OnlyMatch(t, i);
      }
    }
  }

  lemma DeletedAt(s: seq<Metric>, k: Key, j: int)
    requires Known(s, k) && 0 <= j < |s| - 1
    ensures |Deleted(s, k)| == |s| - 1
    ensures Deleted(s, k)[j] == s[if j < IndexOf(s, k) then j else j + 1]
  {
  }

  lemma DeleteKeepsUnique(s: seq<Metric>, k: Key)
    requires UniqueKeys(s)
    ensures UniqueKeys(Deleted(s, k))
  {
  }

  lemma DeleteLookup(s: seq<Metric>, k: Key, q: Key)
    requires UniqueKeys(s)
    ensures Lookup(Deleted(s, k), q) == if q == k then None else Lookup(s, q)
  {
    var t, i, j := Deleted(s, k), IndexOf(s, k), IndexOf(s, q);
    DeleteKeepsUnique(s, k);
    if i >= 0 {
      if q != k && j >= 0 {
        OnlyMatch(t, if j < i then j else j - 1);
      } else if Known(t, q) {
        DeletedAt(s, k, IndexOf(t, q));
      }
    }
  }

  /** In a known entry only the hash and the field the type selects change; an unknown type moves the hash only. */
  lemma UpsertTouchesSelectedField(s: seq<Metric>, m: Metric)
    requires UniqueKeys(s) && Known(s, KeyOf(m))
    ensures var was, now := Lookup(s, KeyOf(m)).value, Lookup(Upserted(s, m), KeyOf(m));
            && now.Some? && now.value.hash == m.hash
            && now.value.delta == (if m.mtype == COUNTER then m.delta else was.delta)
            && now.value.value == (if m.mtype == GAUGE then m.value else was.value)
  {
    UpsertRefinesMap(s, m);
  }

  /** Delete removes exactly the entry of its key and keeps the order of all others. */
  lemma DeleteRefinesMap(s: seq<Metric>, k: Key)
    requires UniqueKeys(s)
    ensures UniqueKeys(Deleted(s, k))
    ensures forall q :: Lookup(Deleted(s, k), q) == if q == k then None else Lookup(s, q)
    ensures Known(s, k) ==>
              var i := IndexOf(s, k);
              Keys(s)[i] == k && Keys(Deleted(s, k)) == Keys(s)[..i] + Keys(s)[i + 1..]
  {
    DeleteKeepsUnique(s, k);
    if Known(s, k) {
      DeletedKeys(s, k);
    }
    forall q ensures Lookup(Deleted(s, k), q) == if q == k then None else Lookup(s, q) {
      DeleteLookup(s, k, q);
    }
  }

  lemma DeletedKeys(s: seq<Metric>, k: Key)
    requires Known(s, k)
    ensures var i := IndexOf(s, k);
            Keys(s)[i] == k && Keys(Deleted(s, k)) == Keys(s)[..i] + Keys(s)[i + 1..]
  {
    var i, t := IndexOf(s, k), Deleted(s, k);
    forall j | 0 <= j < |t| ensures KeyOf(t[j]) == (Keys(s)[..i] + Keys(s)[i + 1..])[j] {
      DeletedAt(s, k, j);
    }
  }

  /** Upserting what is already stored changes nothing, whatever the type. */
  lemma UpsertStoredIsIdentity(s: seq<Metric>, i: int)
    requires UniqueKeys(s) && 0 <= i < |s|
    ensures Upserted(s, s[i]) == s
  {
  }

  lemma {:induction false} UpsertedAllAppends(s: seq<Metric>, ms: seq<Metric>)
    requires UniqueKeys(s + ms)
    ensures UpsertedAll(s, ms) == s + ms
    decreases |ms|
  {
    if ms == [] {
    } else {
      assert (s + ms)[|s|] == ms[0];
      assert forall j :: 0 <= j < |s| ==> s[j] == (s + ms)[j];
      assert Upserted(s, ms[0]) == s + [ms[0]];
      assert s + ms == (s + [ms[0]]) + ms[1..];
      UpsertedAllAppends(s + [ms[0]], ms[1..]);
    }
  }

  lemma {:induction false} UpsertedAllStored(s: seq<Metric>, ms: seq<Metric>)
    requires UniqueKeys(s) && forall i :: 0 <= i < |ms| ==> ms[i] in s
    ensures UpsertedAll(s, ms) == s
    decreases |ms|
  {
    if ms == [] {
    } else {
      var i :| 0 <= i < |s| && s[i] == ms[0];
      UpsertStoredIsIdentity(s, i);
      UpsertedAllStored(s, ms[1..]);
    }
  }

  /** A batch that grows the store by its full length was appended unchanged: no key was met twice. */
  lemma {:induction false} UpsertedAllFullGrowth(s: seq<Metric>, ms: seq<Metric>)
    ensures |UpsertedAll(s, ms)| <= |s| + |ms|
    ensures |UpsertedAll(s, ms)| == |s| + |ms| ==> UpsertedAll(s, ms) == s + ms
    decreases |ms|
  {
    if ms == [] {
    } else {
      var t := Upserted(s, ms[0]);
      GrowsByOneOrStays(s, ms[0]);
      UpsertedAllFullGrowth(t, ms[1..]);
      assert UpsertedAll(s, ms) == UpsertedAll(t, ms[1..]);
      if t == s + [ms[0]] {
        FirstMoved(s, ms);
      } else {
        assert |t| == |s|;
      }
    }
  }

  lemma FirstMoved(s: seq<Metric>, ms: seq<Metric>)
    requires ms != []
    ensures (s + [ms[0]]) + ms[1..] == s + ms
  {
  }

  /**
    * After a batch of plain upserts every key reads the last metric sent for it: its hash and the field its type
    * selects. Every other key is untouched.
    */
  lemma {:induction false} UpsertedAllReads(s: seq<Metric>, ms: seq<Metric>, k: Key)
    requires UniqueKeys(s)
    ensures UniqueKeys(UpsertedAll(s, ms))
    ensures var now, i := Lookup(UpsertedAll(s, ms), k), LastOf(ms, k);
            if i < 0 then now == Lookup(s, k)
            else now.Some? && now.value.hash == ms[i].hash
                 && (k.mtype == GAUGE ==> now.value.value == ms[i].value)
                 && (k.mtype == COUNTER ==> now.value.delta == ms[i].delta)
    decreases |ms|
  {
    if ms == [] {
    } else {
      UpsertRefinesMap(s, ms[0]);
      UpsertedAllReads(Upserted(s, ms[0]), ms[1..], k);
    }
  }

  lemma {:induction false} UpsertedAllConcat(s: seq<Metric>, xs: seq<Metric>, ys: seq<Metric>)
    ensures UpsertedAll(s, xs + ys) == UpsertedAll(UpsertedAll(s, xs), ys)
    decreases |xs|
  {
    if xs == [] {
      assert xs + ys == ys;
    } else {
      assert (xs + ys)[0] == xs[0] && (xs + ys)[1..] == xs[1..] + ys;
      UpsertedAllConcat(Upserted(s, xs[0]), xs[1..], ys);
    }
  }

  lemma GrowsByOneOrStays(s: seq<Metric>, m: Metric)
    ensures |Upserted(s, m)| == |s| || Upserted(s, m) == s + [m]
  {
  }

  // ---- The store itself ----

  /** A Go slice header: what GetBatch hands out is the store's own backing array. */
  datatype Slice = Slice(data: array<Metric>, len: nat)

  class Storage {
    var metrics: array<Metric>
    var count: nat

    ghost predicate Valid() reads this { count <= metrics.Length }

    ghost function Contents(): seq<Metric>
      requires Valid()
      reads this, metrics
    {
      metrics[..count]
    }

    constructor ()
      ensures Valid() && fresh(metrics) && Contents() == []
    {
      metrics := new Metric[0];
      count := 0;
    }

    method Find(k: Key) returns (idx: int)
      requires Valid()
      ensures idx == IndexOf(Contents(), k)
    {
      var i := 0;
      while i < count
        invariant 0 <= i <= count
        invariant forall j :: 0 <= j < i ==> KeyOf(metrics[j]) != k
      {
        if metrics[i].mtype == k.mtype && metrics[i].id == k.id {
          return i;
        }
        i := i + 1;
      }
      return -1;
    }

    /** Go's append: in place while capacity lasts, otherwise into a new array of some larger capacity. */
    method Append(m: Metric)
      requires Valid()
      modifies this, metrics
      ensures Valid() && (metrics == old(metrics) || fresh(metrics))
      ensures Contents() == old(Contents()) + [m]
      ensures old(metrics)[..old(count)] == old(Contents())
    {
      if count == metrics.Length {
        var capacity: nat :| capacity > count;
        var grown := new Metric[capacity](_ => m);
        forall i | 0 <= i < count {
          grown[i] := metrics[i];
        }
        metrics := grown;
      }
      metrics[count] := m;
      count := count + 1;
    }

    /** The last clause says what a slice handed out earlier sees: in-place updates, but no appended entry. */
    method Upsert(m: Metric)
      requires Valid()
      modifies this, metrics
      ensures Valid() && (metrics == old(metrics) || fresh(metrics))
      ensures Contents() == Upserted(old(Contents()), m)
      ensures old(count) <= count && old(metrics)[..old(count)] == Contents()[..old(count)]
    {
      var idx := Find(KeyOf(m));
      if idx < 0 {
        Append(m);
      } else {
        metrics[idx] := metrics[idx].(hash := m.hash);
        if m.mtype == GAUGE {
          metrics[idx] := metrics[idx].(value := m.value);
        } else if m.mtype == COUNTER {
          metrics[idx] := metrics[idx].(delta := m.delta);
        }
      }
    }

    method UpsertBatch(batch: seq<Metric>)
      requires Valid()
      modifies this, metrics
      ensures Valid() && (metrics == old(metrics) || fresh(metrics))
      ensures Contents() == UpsertedAll(old(Contents()), batch)
    {
      var i := 0;
      while i < |batch|
        invariant 0 <= i <= |batch|
        invariant Valid() && (metrics == old(metrics) || fresh(metrics))
        invariant UpsertedAll(old(Contents()), batch) == UpsertedAll(Contents(), batch[i..])
      {
        Upsert(batch[i]);
        assert batch[i..][1..] == batch[i + 1..];
        i := i + 1;
      }
    }

    method Get(k: Key) returns (r: Result<Metric, Error>)
      requires Valid()
      ensures r == match Lookup(Contents(), k) case Some(m) => Ok(m) case None => Err(NotFound)
    {
      var idx := Find(k);
      if idx < 0 {
        return Err(NotFound);
      }
      return Ok(metrics[idx]);
    }

    method GetBatch() returns (r: Slice)
      requires Valid()
      ensures r == Slice(metrics, count)
    {
      return Slice(metrics, count);
    }

    /** The copy behind append(s[:idx], s[idx+1:]...): the tail moves one place down in the same array. */
    method ShiftDown(idx: nat)
      requires Valid() && idx < count
      modifies metrics
      ensures metrics[..count] == old(Contents())[..idx] + old(Contents())[idx + 1..] + [old(Contents())[count - 1]]
    {
      ghost var was := Contents();
      var i := idx;
      while i + 1 < count
        invariant idx <= i < count
        invariant forall j :: 0 <= j < idx || i <= j < count ==> metrics[j] == was[j]
        invariant forall j :: idx <= j < i ==> metrics[j] == was[j + 1]
      {
        metrics[i] := metrics[i + 1];
        i := i + 1;
      }
    }

    /**
      * The third clause says what a slice handed out earlier sees: the remaining metrics followed by a
      * second copy of what used to be the last one.
      */
    method Delete(k: Key) returns (r: Result<(), Error>)
      requires Valid()
      modifies this, metrics
      ensures Valid() && metrics == old(metrics)
      ensures Contents() == Deleted(old(Contents()), k)
      ensures r.Ok? ==> old(count) > 0 && metrics[..old(count)] == Contents() + [old(Contents())[old(count) - 1]]
      ensures r == if Known(old(Contents()), k) then Ok(()) else Err(NotFound)
    {
      var idx := Find(k);
      if idx < 0 {
        return Err(NotFound);
      }
      ShiftDown(idx);
      count := count - 1;
      assert Contents() == metrics[..old(count)][..count];
      return Ok(());
    }
  }
}
