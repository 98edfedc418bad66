/**
 * The feed cache: a Deno KV store seen as a map from two-part keys to a
 * stored feed and its expiry time. Writes go through atomic batches that
 * apply all their mutations together; the nightly job lists every key and
 * deletes them all in one batch. The current time is a parameter.
 */
module FeedCache {
  import opened Wrappers
  import opened Feeds

  /** A two-part KV key, `[scope, name]`, as in `["facebook", user]`. */
  datatype Key = Key(scope: string, name: string)

  /** A stored value and the time (in ms) from which it is expired. */
  datatype Entry = Entry(value: CachedFeed, expiresAt: int)

  /** One mutation of an atomic batch: `setBlob(key, value, { expireIn })` or `delete(key)`. */
  datatype Mutation = Put(key: Key, value: CachedFeed, expireIn: int) | Delete(key: Key)

  /** Both handlers keep a feed for 30 minutes. */
  const CacheLifetime := 30 * 60 * 1000

  function Step(m: map<Key, Entry>, op: Mutation, now: int): map<Key, Entry>
  {
    match op
    case Put(k, v, ttl) => m[k := Entry(v, now + ttl)]
    case Delete(k) => m - {k}
  }

  /** A batch committed at time `now`: its mutations in order, all at once. */
  function Apply(m: map<Key, Entry>, ops: seq<Mutation>, now: int): map<Key, Entry>
    decreases |ops|
  {
    if ops == [] then m else Apply(Step(m, ops[0], now), ops[1..], now)
  }

  /** What a read at time `now` sees: the value, if the key is present and not yet expired. */
  function Lookup(m: map<Key, Entry>, key: Key, now: int): (r: Option<CachedFeed>)
    ensures r.Some? <==> key in m && now < m[key].expiresAt
    ensures r.Some? ==> r.value == m[key].value
  {
    if key in m && now < m[key].expiresAt then Some(m[key].value) else None
  }

  /** One delete per key, in order. */
  function Deletes(keys: seq<Key>): (ops: seq<Mutation>)
    ensures |ops| == |keys|
    ensures forall i :: 0 <= i < |ops| ==> ops[i] == Delete(keys[i])
  {
    if keys == [] then [] else [Delete(keys[0])] + Deletes(keys[1..])
  }

  lemma DeletesAppend(keys: seq<Key>, k: Key)
    ensures Deletes(keys + [k]) == Deletes(keys) + [Delete(k)]
  {
  }

  /** A batch of deletes removes exactly the keys it names. */
  lemma {:induction false} ApplyDeletes(m: map<Key, Entry>, keys: seq<Key>, now: int)
    ensures Apply(m, Deletes(keys), now) == m - set k | k in keys
    decreases |keys|
  {
    if keys != [] {
      ApplyDeletes(m - {keys[0]}, keys[1..], now);
      assert (set k | k in keys) == {keys[0]} + (set k | k in keys[1..]);
      calc {
        Apply(m, Deletes(keys), now);
        Apply(m - {keys[0]}, Deletes(keys[1..]), now);
      }
    }
  }

  /** Deleting every listed key leaves the store empty. */
  lemma DeleteEveryKeyEmpties(m: map<Key, Entry>, keys: seq<Key>, now: int)
    requires forall k :: k in m ==> k in keys
    ensures Apply(m, Deletes(keys), now) == map[]
  {
    ApplyDeletes(m, keys, now);
    var r := m - set k | k in keys;
    assert r.Keys == {};
  }

  /**
   * Two writes of one value in a batch: both keys hold it until the same
   * expiry, and every other key is as before.
   */
  lemma DualWrite(m: map<Key, Entry>, k1: Key, k2: Key, v: CachedFeed, ttl: int, now: int)
    ensures var r := Apply(m, [Put(k1, v, ttl), Put(k2, v, ttl)], now);
      && k1 in r && k2 in r
      && r[k1] == Entry(v, now + ttl) && r[k2] == Entry(v, now + ttl)
      && (forall k :: k != k1 && k != k2 ==> (k in r <==> k in m))
      && (forall k :: k != k1 && k != k2 && k in m ==> r[k] == m[k])
  {
    var ops := [Put(k1, v, ttl), Put(k2, v, ttl)];
    var e := Entry(v, now + ttl);
    assert ops[1..] == [Put(k2, v, ttl)];
    assert ops[1..][1..] == [];
    calc {
      Apply(m, ops, now);
      Apply(m[k1 := e], ops[1..], now);
      Apply(m[k1 := e][k2 := e], ops[1..][1..], now);
      m[k1 := e][k2 := e];
    }
  }

  /** One write: the key holds the value until its expiry, and every other key is as before. */
  lemma SingleWrite(m: map<Key, Entry>, k1: Key, v: CachedFeed, ttl: int, now: int)
    ensures var r := Apply(m, [Put(k1, v, ttl)], now);
      && k1 in r && r[k1] == Entry(v, now + ttl)
      && (forall k :: k != k1 ==> (k in r <==> k in m))
      && (forall k :: k != k1 && k in m ==> r[k] == m[k])
  {
    assert [Put(k1, v, ttl)][1..] == [];
  }

  /** A written value is read back until its lifetime has passed, and not after. */
  lemma ReadBack(m: map<Key, Entry>, k: Key, v: CachedFeed, now: int, later: int)
    ensures var r := Apply(m, [Put(k, v, CacheLifetime)], now);
      Lookup(r, k, later) == if later < now + CacheLifetime then Some(v) else None
  {
    SingleWrite(m, k, v, CacheLifetime, now);
  }

  /** The KV store. */
  class KvStore {
    var entries: map<Key, Entry>

    constructor ()
      ensures entries == map[]
    {
      entries := map[];
    }

    /** `kv.getAsBlob(key)` at time `now`. */
    method Get(key: Key, now: int) returns (r: Option<CachedFeed>)
      ensures r == Lookup(entries, key, now)
    {
      if key in entries && now < entries[key].expiresAt {
        r := Some(entries[key].value);
      } else {
        r := None;
      }
    }

    /** `kv.atomic()…commit()` at time `now`. */
    method Commit(ops: seq<Mutation>, now: int)
      modifies this
      ensures entries == Apply(old(entries), ops, now)
    {
      var k := 0;
      ghost var start := entries;
      while k < |ops|
        invariant 0 <= k <= |ops|
        invariant Apply(start, ops, now) == Apply(entries, ops[k..], now)
      {
        assert ops[k..][1..] == ops[k + 1..];
        entries := Step(entries, ops[k], now);
        k := k + 1;
      }
    }

    /** `kv.setBlob(key, value, { expireIn })` at time `now`. */
    method SetBlob(key: Key, value: CachedFeed, expireIn: int, now: int)
      modifies this
      ensures entries == Apply(old(entries), [Put(key, value, expireIn)], now)
    {
      Commit([Put(key, value, expireIn)], now);
    }

    /** `kv.list({ prefix: [] })`: every key once, in some order. */
    method ListKeys() returns (keys: seq<Key>)
      ensures forall k :: k in keys <==> k in entries
      ensures forall i, j :: 0 <= i < j < |keys| ==> keys[i] != keys[j]
    {
      keys := [];
      var rest := entries.Keys;
      while rest != {}
        invariant rest <= entries.Keys
        invariant forall k :: k in keys <==> k in entries && k !in rest
        invariant forall i, j :: 0 <= i < j < |keys| ==> keys[i] != keys[j]
        decreases |rest|
      {
        var k :| k in rest;
        keys := keys + [k];
        rest := rest - {k};
      }
    }

    /** The nightly job: one delete per listed key, committed as one batch. */
    method EvictAll(now: int)
      modifies this
      ensures entries == map[]
    {
      var keys := ListKeys();
      var ops: seq<Mutation> := [];
      var i := 0;
      while i < |keys|
        invariant 0 <= i <= |keys|
        invariant ops == Deletes(keys[..i])
        invariant unchanged(this)
      {
        assert keys[..i + 1] == keys[..i] + [keys[i]];
        DeletesAppend(keys[..i], keys[i]);
        ops := ops + [Delete(keys[i])];
        i := i + 1;
      }
      assert keys[..i] == keys;
      DeleteEveryKeyEmpties(entries, keys, now);
      Commit(ops, now);
    }
  }
}
