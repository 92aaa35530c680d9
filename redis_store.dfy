/**
 * The Redis database as seen through StackExchange.Redis: string values under
 * string keys, and the expiry last requested for a key. Each command the
 * service issues is a pure function on a `Snapshot`; the class `Database`
 * holds the two maps as fields and its methods apply those functions in place.
 */
module RedisStore {
  import opened Wrappers

  /** .NET `TimeSpan`: a duration counted in 100-nanosecond ticks. */
  const TicksPerSecond: int := 10_000_000

  datatype TimeSpan = TimeSpan(ticks: int)
  {
    /**
     * The span as a whole number of seconds, truncated toward zero: the
     * division StackExchange.Redis performs when it sends the span as an
     * EXPIRE in seconds.
     */
    function WholeSeconds(): int
    {
      if ticks >= 0 then ticks / TicksPerSecond else -((-ticks) / TicksPerSecond)
    }
  }

  /** The contents of the database: values, and the expiry (seconds) set on some keys. */
  datatype Snapshot = Snapshot(store: map<string, string>, ttl: map<string, int>)

  /** Only a key that exists can carry an expiry. */
  predicate WellFormed(s: Snapshot)
  {
    s.ttl.Keys <= s.store.Keys
  }

  /** GET: the stored string, or null for a missing key. */
  function Get(s: Snapshot, key: string): Option<string>
  {
    if key in s.store then Some(s.store[key]) else None
  }

  /** SET without an expiry: writes the value and discards any expiry the key had. */
  function Set(s: Snapshot, key: string, value: string): (r: Snapshot)
    ensures WellFormed(s) ==> WellFormed(r)
    ensures key in r.store && r.store[key] == value && key !in r.ttl
    ensures forall k :: k != key ==> Get(r, k) == Get(s, k)
    ensures forall k :: k != key ==> (k in r.ttl <==> k in s.ttl)
    ensures forall k :: k != key && k in r.ttl ==> r.ttl[k] == s.ttl[k]
  {
    Snapshot(s.store[key := value], s.ttl - {key})
  }

  /** DEL: removes the key and its expiry; a missing key is left missing. */
  function Delete(s: Snapshot, key: string): (r: Snapshot)
    ensures WellFormed(s) ==> WellFormed(r)
    ensures key !in r.store && key !in r.ttl
    ensures forall k :: k != key ==> Get(r, k) == Get(s, k)
    ensures forall k :: k != key ==> (k in r.ttl <==> k in s.ttl)
    ensures forall k :: k != key && k in r.ttl ==> r.ttl[k] == s.ttl[k]
  {
    Snapshot(s.store - {key}, s.ttl - {key})
  }

  /**
   * EXPIRE: on an existing key, a positive span becomes the key's expiry in
   * whole seconds and a non-positive one deletes the key at once; a missing
   * key is not touched.
   */
  function Expire(s: Snapshot, key: string, span: TimeSpan): (r: Snapshot)
    ensures WellFormed(s) ==> WellFormed(r)
    ensures key !in s.store ==> r == s
    ensures key in s.store && span.ticks > 0 ==>
              r.store == s.store && key in r.ttl && r.ttl[key] == span.WholeSeconds()
    ensures key in s.store && span.ticks <= 0 ==> key !in r.store
    ensures forall k :: k != key ==> Get(r, k) == Get(s, k)
    ensures forall k :: k != key ==> (k in r.ttl <==> k in s.ttl)
    ensures forall k :: k != key && k in r.ttl ==> r.ttl[k] == s.ttl[k]
  {
    if key !in s.store then s
    else if span.ticks <= 0 then Delete(s, key)
    else Snapshot(s.store, s.ttl[key := span.WholeSeconds()])
  }

  /** FLUSHDB: the empty database. */
  const Flushed: Snapshot := Snapshot(map[], map[])

  /** One Redis database, changed in place by the commands the service sends. */
  class Database {
    var store: map<string, string>
    var ttl: map<string, int>

    function State(): Snapshot
      reads this
    {
      Snapshot(store, ttl)
    }

    ghost predicate Valid()
      reads this
    {
      WellFormed(State())
    }

    constructor (initial: Snapshot)
      requires WellFormed(initial)
      ensures Valid() && State() == initial
    {
      store := initial.store;
      ttl := initial.ttl;
    }

    method StringGet(key: string) returns (value: Option<string>)
      ensures value == Get(State(), key)
    {
      value := Get(State(), key);
    }

    method StringSet(key: string, value: string)
      requires Valid()
      modifies this
      ensures Valid() && State() == Set(old(State()), key, value)
    {
      store := store[key := value];
      ttl := ttl - {key};
    }

    method KeyExpire(key: string, span: TimeSpan) returns (applied: bool)
      requires Valid()
      modifies this
      ensures Valid() && State() == Expire(old(State()), key, span)
      ensures applied == (key in old(store))
    {
      applied := key in store;
      if !applied {
      } else if span.ticks <= 0 {
        KeyDelete(key);
      } else {
        ttl := ttl[key := span.WholeSeconds()];
      }
    }

    method KeyDelete(key: string)
      requires Valid()
      modifies this
      ensures Valid() && State() == Delete(old(State()), key)
    {
      store := store - {key};
      ttl := ttl - {key};
    }

    method FlushDatabase()
      modifies this
      ensures Valid() && State() == Flushed
    {
      store := map[];
      ttl := map[];
    }

    /**
     * The key enumeration, taken as one finite snapshot. Like SCAN, it only
     * promises that every key present is produced and nothing else is; the
     * order is unspecified.
     */
    method Keys() returns (keys: seq<string>)
      ensures forall k :: k in keys <==> k in store
    {
      keys := [];
      var rest := store.Keys;
      while rest != {}
        invariant rest <= store.Keys
        invariant forall k :: k in keys ==> k in store
        invariant forall k :: k in store ==> k in rest || k in keys
        decreases rest
      {
        var k :| k in rest;
        keys := keys + [k];
        rest := rest - {k};
      }
    }
  }
}
