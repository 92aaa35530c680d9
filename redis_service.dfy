/**
 * `RedisService`: the cache-aside accessor and the invalidation sweep,
 * issuing commands to one Redis database step by step. Each method is proved
 * to leave the database exactly as the matching function of `CacheSpec` says.
 */
module RedisCache {
  import opened Wrappers
  import opened Json
  import opened RedisStore
  import opened CacheSpec

  class RedisService {
    /** The database the connection leads to. */
    const db: Database
    /** How many times a callback has been run through this service. */
    ghost var callbackCalls: nat

    constructor (db: Database)
      ensures this.db == db && callbackCalls == 0
    {
      this.db := db;
      callbackCalls := 0;
    }

    /**
     * Returns the value cached under `key`, or runs `callback(parameter)`,
     * caches its serialisation (expiring after `time` seconds when `time > 0`)
     * and returns it.
     */
    method GetOrSetToRedis<A, T>(key: string, callback: A -> Option<T>, time: Int32 := 0, parameter: A,
                                 json: JsonConvert<T>) returns (r: Result<T, CacheError>)
      requires db.Valid()
      modifies this, db
      ensures db.Valid()
      ensures var o := GetOrSet(old(db.State()), key, callback, time, parameter, json);
        && r == o.result
        && db.State() == o.after
        && callbackCalls == old(callbackCalls) + o.calls
    {
      var serializedObj := db.StringGet(key);
      if serializedObj.Some? {
        var retorno := json.deserialize(serializedObj.value);
        r := if retorno.Some? then Ok(retorno.value) else Err(DeserializationError);
      } else {
        var retorno := callback(parameter);
        callbackCalls := callbackCalls + 1;
        if retorno.None? {
          return Err(GeneratorError);
        }
        var serialized := json.serialize(retorno.value);
        if serialized.None? {
          return Err(SerializationError);
        }
        db.StringSet(key, serialized.value);
        if time > 0 {
          var _ := db.KeyExpire(key, GetSpan(time));
        }
        r := Ok(retorno.value);
      }
    }

    /**
     * With a null or empty pattern flushes the database; otherwise enumerates
     * the keys and deletes each one that contains `pattern`.
     */
    method FlushAll(pattern: Option<string> := Some(""))
      requires db.Valid()
      modifies db
      ensures db.Valid()
      ensures db.State() == CacheSpec.FlushAll(old(db.State()), pattern)
    {
      if IsNullOrEmpty(pattern) {
        db.FlushDatabase();
      } else {
        var p := pattern.value;
        var keys := db.Keys();
        ghost var original := db.State();
        var i := 0;
        while i < |keys|
          invariant 0 <= i <= |keys|
          invariant db.Valid()
          invariant db.State() == SweepKeys(original, keys[..i], p)
        {
          assert keys[..i + 1][..i] == keys[..i];
          if Contains(keys[i], p) {
            db.KeyDelete(keys[i]);
          }
          i := i + 1;
        }
        assert keys[..|keys|] == keys;
        SweepOfAllKeysIsSwept(original, keys, p);
      }
    }
  }
}
