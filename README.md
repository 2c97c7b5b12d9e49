# inmemkv: a lazily-expiring in-memory key-value cache, in Dafny

This project models `inMemKeyValue` from `inmemkv.go`. It is a string-keyed cache with an optional
time-to-live that applies to every key. The cache keeps four pieces of state:

- a value table (`mm`, key to value);
- a deadline table (`mmDeadlines`, here `deadlines`, key to an absolute instant);
- an `isExpirable` flag (here `expirable`);
- a `ttl` duration.

A write stores the value. When expiration is on, the write also stores the deadline `now + ttl`.
A read returns the value only if the key is stored and, under expiration, has a deadline that
`now` is not strictly after. A read that finds no deadline, or a passed one, deletes the key
from both tables. `Delete` removes a key. `Reset` empties the tables and keeps the configuration.

The project has three files:

- `cache_state.dfy`, module `CacheState`. This is the state as a value (`Cache<V>`) and each
  operation as a function from old state to new state: `ApplyOpt`, `ApplyAll`, `New`, `Get`,
  `Cleanup`, `Set`, `Is` and `Reset`. It also holds the pairing invariant `Valid` (under expiration,
  the two tables have the same keys; otherwise the deadline table stays empty) and the liveness
  predicate `Live`.
- `inmemkv.dfy`, module `InMemKV`. The class `InMemKeyValue<V>` has the four fields. Its
  methods change them in place, following the Go code branch by branch. Each method is proved
  to move `Model()` exactly as the matching `CacheState` function does. Each method also keeps
  `Valid()`. The constructor is `NewCache`: it loops over the options, applying each in place,
  then calls `Reset`. As in Go, options exist only as constructor arguments; there is no way to
  apply one to a cache that already exists.
- `cache_properties.dfy`, module `CacheProperties`. A call sequence is a list of `Op`s, run by
  `Run`. This module proves lemmas about such runs: the invariant holds after any run, a written
  value stays readable until its key is written again, deleted, reset or read past its deadline,
  plus the laws for expiry, overwrite, delete and reset.

The wall clock (`time.Now()`) is an explicit `now: int` argument, in nanoseconds.
`time.Time` and `time.Duration` become unbounded integers. `Get` returns `Option<V>`:
`None` stands for Go's `(nil, false)` and `Some(v)` for `(v, true)`. A stored `nil` is just
another value of `V`. The option closures (`KeyValueOpt`) become the datatype
`KeyValueOpt = WithTTL(ttl)`. The constructor applies each one in place, and
`CacheState.ApplyOpt` states its effect.

The operations do not require the invariant. So `Get`'s branch for a stored key without a
deadline is modelled as the code handles it (it is treated as expired), even though a cache
built by `New` never reaches that branch (`CacheProperties.RunKeepsValid`).

`Get` expires a key only when `time.Now().After(d)`. The test is strict, so a read exactly at
the deadline still hits (`CacheProperties.ExpiryBoundary`).

## Model

| member | source | states |
|---|---|---|
| CacheState.ApplyOpt | inmemkv.go:28-33 | the WithTTL option stores its duration as the ttl and switches expiration on; the tables are untouched |
| CacheState.ApplyAll | inmemkv.go:19-21 | applying options in order leaves the tables unchanged; expiration is on exactly when at least one option was given, and the ttl is the last option's |
| CacheState.New | inmemkv.go:17-24 | a new cache is empty in both tables, satisfies the pairing invariant, is expirable exactly when an option was given, has the last option's ttl, and has no live key at any time |
| CacheState.Get | inmemkv.go:35-53 | returns a value exactly when the key is live (stored and, under expiration, with a deadline now is not strictly after), and that value is the stored one; an absent key or a live hit leaves the state unchanged; a stored key that is not live is cleaned up; the configuration and the invariant are kept |
| CacheState.Cleanup | inmemkv.go:55-60 | the key leaves the value table, and the deadline table under expiration; without expiration the deadline table is untouched; every other key and the configuration are unchanged; the invariant is kept |
| CacheState.Set | inmemkv.go:62-68 | the key maps to the new value; under expiration its deadline becomes now + ttl, and otherwise the deadline table is untouched; every other key and the configuration are unchanged; the invariant is kept |
| CacheState.Is | inmemkv.go:74-77 | the result is true exactly when the key is live, which is Get's found flag; the state after it is the state after Get |
| CacheState.Reset | inmemkv.go:79-84 | the value table becomes empty, and the deadline table under expiration; the configuration is kept; no key is live afterwards; the invariant is kept |
| InMemKV.InMemKeyValue.constructor | inmemkv.go:17-33 | the fields start at the zero state; the loop applies the options in order, each storing its ttl and switching expiration on; Reset follows; the resulting state is New(opts) and satisfies the invariant |
| InMemKV.InMemKeyValue.Get | inmemkv.go:35-53 | the in-place read returns Get's value and leaves Get's next state, so it hits exactly on a live key and deletes a stored key that is not live; the invariant is kept |
| InMemKV.InMemKeyValue.Cleanup | inmemkv.go:55-60 | the in-place removal changes the state as Cleanup does and keeps the invariant |
| InMemKV.InMemKeyValue.Set | inmemkv.go:62-68 | the in-place write changes the state as Set does and keeps the invariant |
| InMemKV.InMemKeyValue.Delete | inmemkv.go:70-72 | Delete changes the state as Cleanup does and keeps the invariant |
| InMemKV.InMemKeyValue.Is | inmemkv.go:74-77 | returns Is's flag, which is Get's found flag, with Get's side effect; keeps the invariant |
| InMemKV.InMemKeyValue.Reset | inmemkv.go:79-84 | reassigns the tables as Reset does, keeps the configuration and the invariant |
| CacheProperties.Step | inmemkv.go:35-84 | every single call keeps the configuration and the pairing invariant |
| CacheProperties.Run | inmemkv.go:35-84 | any sequence of calls keeps the configuration and the pairing invariant |
| CacheProperties.RunKeepsValid | inmemkv.go:17-24 | every cache built by NewCache and then any call sequence satisfies the pairing invariant, and is expirable exactly when it was built with an option |
| CacheProperties.RunKeepsEntry | inmemkv.go:35-84 | a call sequence that does not write, delete or reset a key, and reads it (under expiration) no later than its deadline, leaves its value and deadline in place |
| CacheProperties.SetThenGet | inmemkv_test.go:127-147 | after Set(k, v) at time t and any calls that spare k, Get(k) returns v and changes nothing, at every now up to t + ttl, and at every now when the cache is not expirable |
| CacheProperties.SetThenExpire | inmemkv_test.go:153-164 | after Set(k, v) at time t and any calls that spare k, under expiration, Get(k) at a now strictly after t + ttl misses and removes k from both tables |
| CacheProperties.ExpiryBoundary | inmemkv.go:46-50 | under expiration a read exactly at the deadline hits without changing anything, and a read one nanosecond later misses and cleans the key up |
| CacheProperties.MissingDeadlineExpires | inmemkv.go:41-44 | under expiration a stored key with no deadline reads as a miss and is deleted |
| CacheProperties.GetAbsent | inmemkv.go:36-39 | Get and Is on a key absent from the value table miss and leave the state unchanged |
| CacheProperties.SetOverwrites | inmemkv.go:62-68 | a second Set of the same key gives the same state as the second Set alone: the later value and the later deadline win |
| CacheProperties.DeleteIdempotent | inmemkv.go:70-72 | deleting a key twice gives the same state as deleting it once |
| CacheProperties.DeleteAbsent | inmemkv.go:55-60 | deleting a key that is absent from a cache that satisfies the invariant changes nothing |
| CacheProperties.DeleteThenGet | inmemkv.go:70-72 | Get after Delete misses and changes nothing |
| CacheProperties.ResetThenGet | inmemkv.go:79-84 | after Reset every Get misses and changes nothing, and a fresh Set after Reset is read back |
| CacheProperties.RunKeepsAbsent | inmemkv.go:35-84 | only Set adds a key: a call sequence that does not write an absent key leaves it absent from the value table |
| CacheProperties.NewMisses | inmemkv_test.go:149-151 | after construction and any calls that never write a key, Get on that key misses and changes nothing |

## Left out

- Concurrency: `sync.Map`, `atomic.Bool` and `atomic.Value` (inmemkv.go:10-14) become plain fields under sequential execution. The window between the value write and the deadline write in `Set`, which a concurrent `Get` could observe, cannot occur in a sequential model.
- The wall clock: `time.Now()` (inmemkv.go:47, inmemkv.go:66) is a foreign call. Each operation that reads it takes `now` as an argument instead.
- Bounded time: `time.Time` and `time.Duration` are unbounded integers. Overflow of `time.Now().Add(ttl)` is not modelled. A negative ttl is allowed, as in the source.
- The unallocated deadline table: `NewCache` without an option leaves `mmDeadlines` nil (inmemkv.go:18, inmemkv.go:81-83). The model uses an empty map instead. No public operation touches the deadline table unless expiration is on, and expiration can only be switched on during construction, before `Reset` allocates the table. So the nil table is never used. Applying an option to a cache after construction is outside the model (Go callers have no way to do it); in Go the next `Set`, or `Get` of a stored key, would then panic on the nil table.
- The dynamic type assertions `raw.(time.Time)` and `.(time.Duration)` (inmemkv.go:46, inmemkv.go:65) are dropped: in this model the tables are statically typed.
- The option closure type `KeyValueOpt` (inmemkv.go:26): only `WithTTL` exists, so it is modelled as a datatype that the constructor loop applies in place; `CacheState.ApplyOpt` states its effect. Options that run arbitrary code against the struct are not modelled.
- `ChangeTTL` and `DisableTTL` (interface-kv.go:14-15) have no implementation in the source, so there is no behaviour to model for them.
- The benchmarks and the md5 key helper in inmemkv_test.go:17-86 are performance scaffolding, not cache behaviour.
