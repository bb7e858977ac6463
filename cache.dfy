/** The TTL record cache of cache.py: one bucket per supported record type,
    each mapping a name to a single record, and the sweep that drops the
    records whose age exceeds their ttl. Time is an integer supplied by the
    caller. */
module RecordCache {
  import opened Common
  import opened Dns

  /** What the cache keeps for one (type, name): the data, its ttl in seconds
      and the time it was stored. */
  datatype Record = Record(value: Data, ttl: nat, creationTime: int)

  /** The ValueError of `get` and `put` for a type outside the supported set. */
  datatype CacheError = UnsupportedType(code: int)

  type Store = map<RecordType, map<string, Record>>

  /** Every supported type has its bucket. */
  predicate Complete(s: Store)
  {
    forall t: RecordType :: t in s
  }

  /** The store of a cache created with no saved file: one empty bucket per
      supported type. */
  function EmptyStore(): (s: Store)
    ensures Complete(s)
    ensures forall t: RecordType :: s[t] == map[]
  {
    var s := map[A := map[], NS := map[], PTR := map[], AAAA := map[]];
    EveryTypeIn(s);
    s
  }

  lemma EveryTypeIn(s: Store)
    requires A in s && NS in s && PTR in s && AAAA in s
    ensures Complete(s)
  {
    forall t: RecordType
      ensures t in s
    {
      match t
      case A =>
      case NS =>
      case PTR =>
      case AAAA =>
    }
  }

  /** The record kept for (t, key), if any. */
  function Lookup(s: Store, t: RecordType, key: string): (r: Option<Record>)
    requires Complete(s)
    ensures r.Some? <==> key in s[t]
    ensures r.Some? ==> r.value == s[t][key]
  {
    if key in s[t] then Some(s[t][key]) else None
  }

  /** The store after recording `rec` under (t, key): that entry now holds
      `rec`, whatever it held before, and every other entry is as it was. */
  function Stored(s: Store, t: RecordType, key: string, rec: Record): (s': Store)
    requires Complete(s)
    ensures Complete(s')
    ensures Lookup(s', t, key) == Some(rec)
    ensures forall u: RecordType, k :: (u != t || k != key) ==> Lookup(s', u, k) == Lookup(s, u, k)
  {
    s[t := s[t][key := rec]]
  }

  /** A record is stale once more than ttl seconds have passed since it was
      stored; one aged exactly ttl is still fresh. */
  predicate Expired(r: Record, now: int)
  {
    now - r.creationTime > r.ttl
  }

  /** One bucket after a sweep at `now`: its records that are not stale. */
  function Fresh(bucket: map<string, Record>, now: int): (kept: map<string, Record>)
    ensures forall k :: k in kept <==> k in bucket && !Expired(bucket[k], now)
    ensures forall k :: k in kept ==> kept[k] == bucket[k]
  {
    map k | k in bucket && !Expired(bucket[k], now) :: bucket[k]
  }

  /** The store after a sweep at `now`: exactly the stale records are gone. */
  function Swept(s: Store, now: int): (s': Store)
    ensures s'.Keys == s.Keys
    ensures forall t, k :: t in s && k in s[t] ==>
              (k in s'[t] <==> !Expired(s[t][k], now))
    ensures forall t, k :: t in s' && k in s'[t] ==> k in s[t] && s'[t][k] == s[t][k]
  {
    map t | t in s :: Fresh(s[t], now)
  }

  /** `s` with the (type, key) entries named in `d` deleted. */
  ghost function Without(s: Store, d: set<(RecordType, string)>): Store
  {
    map t | t in s :: map k | k in s[t] && (t, k) !in d :: s[t][k]
  }

  /** Deleting nothing leaves the store as it is. */
  lemma WithoutNothing(s: Store)
    ensures Without(s, {}) == s
  {
    var w := Without(s, {});
    forall t | t in w
      ensures w[t] == s[t]
    {
      assert w[t].Keys == s[t].Keys;
    }
  }

  /** Deleting one more entry from its bucket is deleting it from the start. */
  lemma WithoutOneMore(s: Store, d: set<(RecordType, string)>, e: (RecordType, string))
    requires e.0 in s
    ensures var w := Without(s, d); Without(s, d + {e}) == w[e.0 := w[e.0] - {e.1}]
  {
    var w := Without(s, d);
    var l, r := Without(s, d + {e}), w[e.0 := w[e.0] - {e.1}];
    assert l.Keys == r.Keys;
    forall t | t in l
      ensures l[t] == r[t]
    {
      assert l[t].Keys == r[t].Keys;
    }
  }

  /** Deleting exactly the stale entries is the sweep. */
  lemma WithoutStale(s: Store, d: set<(RecordType, string)>, now: int)
    requires forall e :: e in d <==> e.0 in s && e.1 in s[e.0] && Expired(s[e.0][e.1], now)
    ensures Without(s, d) == Swept(s, now)
  {
    var l, r := Without(s, d), Swept(s, now);
    forall t | t in l
      ensures l[t] == r[t]
    {
      assert l[t].Keys == r[t].Keys;
    }
  }

  /** The cache object: its store is updated in place by `Put` and by the sweep. */
  class Cache {
    var store: Store

    ghost predicate Valid()
      reads this
    {
      Complete(store)
    }

    /** `_init_cache` when no saved file exists. */
    constructor ()
      ensures Valid() && store == EmptyStore()
    {
      store := EmptyStore();
    }

    /** `get`: the record for (type, key), None when there is none, and
        UnsupportedType when the type code is not A, NS, PTR or AAAA. */
    method Get(code: int, key: string) returns (r: Result<Option<Record>, CacheError>)
      requires Valid()
      ensures TypeOf(code).None? ==> r == Failure(CacheError.UnsupportedType(code))
      ensures TypeOf(code).Some? ==> r == Success(Lookup(store, TypeOf(code).value, key))
    {
      var t := TypeOf(code);
      if t.None? {
        return Failure(CacheError.UnsupportedType(code));
      }
      if key !in store[t.value] {
        return Success(None);
      }
      return Success(Some(store[t.value][key]));
    }

    /** `put`: records (value, ttl, now) under (type, key), replacing what was
        there; an unsupported type changes nothing. */
    method Put(code: int, key: string, value: Data, ttl: nat, now: int) returns (err: Option<CacheError>)
      requires Valid()
      modifies this
      ensures Valid()
      ensures TypeOf(code).None? ==> err == Some(CacheError.UnsupportedType(code)) && store == old(store)
      ensures TypeOf(code).Some? ==>
                err == None && store == Stored(old(store), TypeOf(code).value, key, Record(value, ttl, now))
    {
      var t := TypeOf(code);
      if t.None? {
        return Some(CacheError.UnsupportedType(code));
      }
      store := store[t.value := store[t.value][key := Record(value, ttl, now)]];
      return None;
    }

    /** The first half of `_run_cleaning`: every (type, key) whose record is
        stale at `now`. */
    method StaleEntries(now: int) returns (stale: set<(RecordType, string)>)
      ensures forall e :: e in stale <==>
        e.0 in store && e.1 in store[e.0] && Expired(store[e.0][e.1], now)
    {
      stale := {};
      var types := store.Keys;
      while types != {}
        invariant types <= store.Keys
        invariant forall e :: e in stale <==>
          e.0 in store && e.0 !in types && e.1 in store[e.0] && Expired(store[e.0][e.1], now)
        decreases types
      {
        var t :| t in types;
        var keys := store[t].Keys;
        while keys != {}
          invariant keys <= store[t].Keys
          invariant forall e :: e in stale <==>
            || (e.0 in store && e.0 !in types && e.1 in store[e.0] && Expired(store[e.0][e.1], now))
            || (e.0 == t && e.1 in store[t] && e.1 !in keys && Expired(store[t][e.1], now))
          decreases keys
        {
          var k :| k in keys;
          if Expired(store[t][k], now) {
            stale := stale + {(t, k)};
          }
          keys := keys - {k};
        }
        types := types - {t};
      }
    }

    /** `_run_cleaning` at time `now`: collect every stale (type, key), then
        delete each of them from its bucket. */
    method RunCleaning(now: int)
      requires Valid()
      modifies this
      ensures Valid()
      ensures store == Swept(old(store), now)
    {
      var snapshot := store;
      var toDelete := StaleEntries(now);
      var rest := toDelete;
      WithoutNothing(snapshot);
      assert toDelete - rest == {};
      while rest != {}
        invariant rest <= toDelete
        invariant store == Without(snapshot, toDelete - rest)
        decreases rest
      {
        var e :| e in rest;
        WithoutOneMore(snapshot, toDelete - rest, e);
        assert toDelete - (rest - {e}) == (toDelete - rest) + {e};
        store := store[e.0 := store[e.0] - {e.1}];
        rest := rest - {e};
      }
      assert toDelete - rest == toDelete;
      assert store == Swept(snapshot, now) by {
        WithoutStale(snapshot, toDelete, now);
      }
      assert store.Keys == snapshot.Keys;
    }
  }

  // ---------------------------------------------------------------- properties

  /** A lookup after a sweep finds exactly the records that were there and are
      not stale. */
  lemma LookupAfterSweep(s: Store, now: int, t: RecordType, key: string)
    requires Complete(s)
    ensures Complete(Swept(s, now))
    ensures Lookup(Swept(s, now), t, key) ==
      match Lookup(s, t, key)
      case Some(r) => if Expired(r, now) then None else Some(r)
      case None => None
  {
  }

  /** Sweeping again at the same time or later removes what the later sweep
      alone would: in particular a second sweep at the same time changes nothing. */
  lemma SweepTwice(s: Store, first: int, second: int)
    requires first <= second
    ensures Swept(Swept(s, first), second) == Swept(s, second)
  {
    var mid := Swept(s, first);
    var once, twice := Swept(s, second), Swept(mid, second);
    forall t | t in s
      ensures twice[t] == once[t]
    {
      assert twice[t] == Fresh(mid[t], second) && mid[t] == Fresh(s[t], first);
      FreshTwice(s[t], first, second);
    }
    assert twice.Keys == once.Keys;
  }

  /** Sweeping a bucket at a later time after an earlier one is sweeping it
      at the later time alone. */
  lemma FreshTwice(b: map<string, Record>, first: int, second: int)
    requires first <= second
    ensures Fresh(Fresh(b, first), second) == Fresh(b, second)
  {
    var l, r := Fresh(Fresh(b, first), second), Fresh(b, second);
    assert l.Keys == r.Keys;
  }

  /** A later record for the same (type, key) leaves no trace of the earlier
      one: the cache holds at most one record per key. */
  lemma PutReplaces(s: Store, t: RecordType, key: string, earlier: Record, later: Record)
    requires Complete(s)
    ensures Stored(Stored(s, t, key, earlier), t, key, later) == Stored(s, t, key, later)
  {
    assert s[t][key := earlier][key := later] == s[t][key := later];
  }

  // ---------------------------------------------------------------- as written

  /** The TypeError that cache.py:46 raises by putting a dict into a set. */
  datatype SweepFault = UnhashableDict

  /** `_run_cleaning` as written (cache.py:40-49): the first stale record makes
      `to_delete.add((kk, v, k))` raise, since `v` is a dict, before anything
      is deleted; with nothing stale there is nothing to delete. */
  function SweepAsWritten(s: Store, now: int): (r: Result<Store, SweepFault>)
    ensures r.Failure? <==> exists t, k :: t in s && k in s[t] && Expired(s[t][k], now)
    ensures r.Failure? ==> r.error == UnhashableDict
    ensures r.Success? ==> r.value == s
  {
    if exists t, k :: t in s && k in s[t] && Expired(s[t][k], now) then Failure(UnhashableDict)
    else Success(s)
  }

  /** As written, the sweep never removes a record: a stale record makes it
      fail and stay where it is, while the corrected sweep drops it. */
  lemma SweepAsWrittenKeepsStale(s: Store, now: int, t: RecordType, key: string)
    requires Complete(s) && key in s[t] && Expired(s[t][key], now)
    ensures SweepAsWritten(s, now) == Failure(UnhashableDict)
    ensures Lookup(s, t, key).Some?
    ensures Lookup(Swept(s, now), t, key) == None
  {
  }
}
