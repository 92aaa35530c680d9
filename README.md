# RedisService, modelled in Dafny

`RedisService` (RedisCache/RedisService.cs) is a small cache-aside helper over
StackExchange.Redis and Newtonsoft.Json. It has two operations:

- `GetOrSetToRedis(key, callback, time, parameter)` reads `key`. A non-null
  value is deserialised and returned. Otherwise `callback(parameter)` computes
  the value, which is serialised, written under `key` and returned. When
  `time > 0` the key also gets an expiry of `time` seconds.
- `FlushAll(pattern)` flushes the whole database when the pattern is null or
  empty. Otherwise it enumerates the keys and deletes each key that contains
  the pattern as an ordinal, case-sensitive substring.

The model has five modules:

- `Wrappers` holds `Option` and `Result`.
- `RedisStore` models the Redis database. A `Snapshot` value holds the string
  values (`store`) and the requested expiries in seconds (`ttl`). The commands
  the service sends (GET, SET, EXPIRE, DEL, FLUSHDB) are pure functions on
  snapshots. The class `Database` keeps `store` and `ttl` as fields, and its
  methods apply those commands in place. `Database.Keys` enumerates the keys
  into a sequence with a loop.
- `Json` treats the JSON converter as an abstract pair of functions. `None`
  stands for the exception either direction may throw.
- `CacheSpec` holds `GetOrSet` and `FlushAll` as functions from the database
  before a call to the database after it, and the lemmas about them.
- `RedisCache` holds the class `RedisService`. Its methods issue the commands
  one at a time, as the C# does. Each is proved to end in the state that the
  matching `CacheSpec` function gives. A ghost counter `callbackCalls` records
  how many times a callback ran.

Two details of the code that the model keeps:

- The presence test at RedisCache/RedisService.cs:43 is `serializedObj != null`
  only, so a stored empty string is a hit (`CacheSpec.EmptyStringIsHit`).
- Neither `time` nor `key` is validated. A non-positive `time` sets no
  expiry, and any key is accepted.

The C# default arguments (`time = 0`, `pattern = ""`) are default parameter
values of `GetOrSetToRedis` and `FlushAll`.

Two Redis behaviours are modelled because the code's guard depends on them:

- SET without an expiry clears any earlier expiry.
- EXPIRE with a non-positive span deletes the key. This is why the code must
  skip `KeyExpire` when `time <= 0`.

## Model

| member | source | states |
|---|---|---|
| `RedisCache.RedisService.GetOrSetToRedis` | RedisCache/RedisService.cs:37-57 | the step-by-step read, callback, write and optional expire returns exactly the result and leaves exactly the database that `CacheSpec.GetOrSet` gives; the callback counter grows by that call's count (0 on a hit, 1 on a miss) |
| `RedisCache.RedisService.FlushAll` | RedisCache/RedisService.cs:65-84 | the flush, or the loop deleting each enumerated key that contains the pattern, leaves the database `CacheSpec.FlushAll` gives: empty for a null or empty pattern, else exactly the keys without the pattern, with their values and expiries unchanged |
| `RedisCache.RedisService.constructor` | RedisCache/RedisService.cs:15-18 | the service talks to the given database and has run no callback yet |
| `CacheSpec.GetSpan` | RedisCache/RedisService.cs:98-102 | the span is exactly `time` whole seconds, and it is positive iff `time` is |
| `CacheSpec.Hit` | RedisCache/RedisService.cs:41-45 | when the key is present, the callback is not run, the values and expiries are unchanged, and the result is the deserialised stored value (or a deserialisation error) |
| `CacheSpec.EmptyStringIsHit` | RedisCache/RedisService.cs:43 | a stored empty string counts as present: no callback runs |
| `CacheSpec.Miss` | RedisCache/RedisService.cs:47-51 | when the key is absent, the callback runs exactly once; the call succeeds iff the callback and the serialiser both succeed; on success it returns the callback's value and the key holds its serialisation; a failed callback surfaces as a generator error and a failed serialiser as a serialisation error; any failure leaves the database unchanged |
| `CacheSpec.MissExpiry` | RedisCache/RedisService.cs:51-53 | after a successful miss the key has an expiry iff `time > 0`, and then exactly `time` seconds |
| `CacheSpec.OnlyKeyChanges` | RedisCache/RedisService.cs:51-53 | no key other than `key` gains, loses or changes a value or an expiry |
| `CacheSpec.GetOrSetWellFormed` | RedisCache/RedisService.cs:51-53 | get-or-set keeps every expiry on an existing key |
| `CacheSpec.MissThenHit` | RedisCache/RedisService.cs:42-56 | if the JSON converter round-trips, a second call after a successful miss runs no callback, changes nothing and returns the first call's value |
| `CacheSpec.SweepKeysDeletesMatching` | RedisCache/RedisService.cs:76-82 | the sweep loop over any enumeration deletes exactly the enumerated keys that contain the pattern, together with their expiries, whatever the order or repetition |
| `CacheSpec.SweepOfAllKeysIsSwept` | RedisCache/RedisService.cs:74-82 | a sweep over an enumeration that covers every key leaves exactly the keys without the pattern, with their values and expiries |
| `CacheSpec.FullFlush` | RedisCache/RedisService.cs:68-70 | a null or empty pattern leaves no key and no expiry |
| `CacheSpec.EmptyPatternSweepsEverything` | RedisCache/RedisService.cs:68-82 | every key contains the empty pattern, so the short cut for an empty pattern agrees with what the sweep would do |
| `CacheSpec.PatternFlushSelective` | RedisCache/RedisService.cs:74-82 | with a non-empty pattern, no surviving key contains it, every key without it survives with its value and expiry, and no key or expiry is added |
| `CacheSpec.FlushAllWellFormed` | RedisCache/RedisService.cs:65-84 | a flush keeps every expiry on an existing key |
| `CacheSpec.FlushAllIdempotent` | RedisCache/RedisService.cs:65-84 | flushing twice with the same pattern leaves the same database as flushing once |
| `CacheSpec.FlushUserKeys` | RedisCache/RedisService.cs:78-80 | with keys "user:1", "user:2" and "order:1", the pattern "user:" deletes the first two and keeps "order:1" |
| `RedisStore.Set` | RedisCache/RedisService.cs:51 | SET writes the value and clears the key's expiry; every other key keeps its value and expiry |
| `RedisStore.Expire` | RedisCache/RedisService.cs:53 | EXPIRE on an existing key records a positive span in whole seconds or deletes the key for a non-positive span; a missing key and every other key are untouched |
| `RedisStore.Delete` | RedisCache/RedisService.cs:80 | DEL removes the key and its expiry; every other key keeps its value and expiry |
| `RedisStore.Database.StringGet` | RedisCache/RedisService.cs:42 | GET returns the stored string, or null (`None`) for a missing key |
| `RedisStore.Database.StringSet` | RedisCache/RedisService.cs:51 | applies SET to the fields |
| `RedisStore.Database.KeyExpire` | RedisCache/RedisService.cs:53 | applies EXPIRE to the fields and reports whether the key existed |
| `RedisStore.Database.KeyDelete` | RedisCache/RedisService.cs:80 | applies DEL to the fields |
| `RedisStore.Database.FlushDatabase` | RedisCache/RedisService.cs:70 | leaves no key and no expiry |
| `RedisStore.Database.Keys` | RedisCache/RedisService.cs:74 | the enumeration yields every key in the database and nothing else |

## Left out

- Connection handling is not modelled: the lazy `ConnectionMultiplexer`, the static `ConnectionString` field, the `", allowAdmin=true"` suffix, `GetServer` and `GetDatabase`. The service is given its `Database` directly. Connectivity errors are not modelled.
- Time passing is not modelled. Redis never expires or evicts a key in this model; `ttl` only records the expiry that was requested.
- Concurrency is not modelled: the read-then-write race between callers, and keys created during a sweep. Every operation runs alone.
- The paging of `server.Keys()` is not modelled. The enumeration is one finite snapshot, and it only promises to cover every key.
- The Newtonsoft encoding is not modelled. Round-trip fidelity holds only where a lemma assumes it (`RoundTrips`).
- The callback is modelled as a pure, total function. Its own effects are not modelled, including any Redis commands it issues between the GET and the SET (a nested `GetOrSetToRedis` on another key, say). `CacheSpec.OnlyKeyChanges` and the other frame statements cover the service's own commands only. An exception the callback throws becomes `None` and is reported as `GeneratorError`; the C# rethrows the callback's own exception unchanged.
- Keys and patterns are Dafny strings of Unicode scalar values. Redis keys are byte strings, and the flush tests `RedisKey.ToString()` (their UTF-8 decoding) as UTF-16 code units. The substring test agrees on well-formed text, but binary keys and patterns holding lone surrogates cannot be expressed.
- C# generics are simplified. `Func<object, T>` with `params object[]` becomes a callback of type `A -> Option<T>` applied to one argument. The `(T)retorno` cast is not modelled.
- Redis values of non-string types (a WRONGTYPE reply) are not modelled. A null key is not modelled either.
- RedisStore.Expire: sub-second precision is not modelled. A span is recorded in whole seconds, and `getSpan` only makes whole-second spans.
