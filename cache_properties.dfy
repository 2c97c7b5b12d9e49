/**
 Properties of the cache over sequences of calls: the pairing invariant holds
 after any run, a written value stays readable until its key is deleted,
 reset or read past its deadline, and the single-call laws of overwrite,
 expiry, deletion and reset.
 */
module CacheProperties {
  import opened CacheState

  /** One call of the public interface, with the clock reading it observes. */
  datatype Op<V> =
    | SetOp(key: string, value: V, now: int)
    | GetOp(key: string, now: int)
    | IsOp(key: string, now: int)
    | DeleteOp(key: string)
    | ResetOp

  function Step<V>(c: Cache<V>, op: Op<V>): (r: Cache<V>)
    ensures SameConfig(c, r)
    ensures Valid(c) ==> Valid(r)
  {
    match op
    case SetOp(k, v, now) => Set(c, k, v, now)
    case GetOp(k, now) => Get(c, k, now).next
    case IsOp(k, now) => Is(c, k, now).next
    case DeleteOp(k) => Cleanup(c, k)
    case ResetOp => Reset(c)
  }

  /** The state after the calls `ops`, in order. */
  function Run<V>(c: Cache<V>, ops: seq<Op<V>>): (r: Cache<V>)
    ensures SameConfig(c, r)
    ensures Valid(c) ==> Valid(r)
    decreases |ops|
  {
    if |ops| == 0 then c else Run(Step(c, ops[0]), ops[1..])
  }

  /** The call `op` leaves an entry of `key` whose deadline is `deadline` in
      place: it writes, deletes or resets nothing of that key, and, under
      expiration, reads of that key happen no later than the deadline. */
  predicate Spares<V>(op: Op<V>, key: string, expirable: bool, deadline: int)
  {
    match op
    case SetOp(k, _, _) => k != key
    case GetOp(k, now) => k != key || !expirable || now <= deadline
    case IsOp(k, now) => k != key || !expirable || now <= deadline
    case DeleteOp(k) => k != key
    case ResetOp => false
  }

  /** The call `op` writes `key`. */
  predicate Writes<V>(op: Op<V>, key: string)
  {
    op.SetOp? && op.key == key
  }

  /** `key` holds `value` and, under expiration, the deadline `deadline`. */
  ghost predicate Holds<V>(c: Cache<V>, key: string, value: V, deadline: int)
  {
    && key in c.mm && c.mm[key] == value
    && (c.expirable ==> key in c.deadlines && c.deadlines[key] == deadline)
  }

  /** A cache built by any sequence of calls keeps the pairing invariant. */
  lemma RunKeepsValid<V>(opts: seq<KeyValueOpt>, ops: seq<Op<V>>)
    ensures Valid(Run(New(opts), ops))
    ensures Run(New(opts), ops).expirable == (|opts| > 0)
  {
  }

  /** Calls that spare an entry leave it as it was. */
  lemma {:induction false} RunKeepsEntry<V>(c: Cache<V>, ops: seq<Op<V>>, key: string, value: V, deadline: int)
    requires Holds(c, key, value, deadline)
    requires forall i :: 0 <= i < |ops| ==> Spares(ops[i], key, c.expirable, deadline)
    ensures Holds(Run(c, ops), key, value, deadline)
    decreases |ops|
  {
    if |ops| > 0 {
      var c' := Step(c, ops[0]);
      assert Spares(ops[0], key, c.expirable, deadline);
      assert Holds(c', key, value, deadline) by {
        match ops[0]
        case SetOp(k, v, now) =>
        case GetOp(k, now) =>
        case IsOp(k, now) =>
        case DeleteOp(k) =>
      }
      forall i | 0 <= i < |ops[1..]|
        ensures Spares(ops[1..][i], key, c'.expirable, deadline)
      {
        assert ops[1..][i] == ops[i + 1];
      }
      RunKeepsEntry(c', ops[1..], key, value, deadline);
    }
  }

  /** Only Set adds a key: calls that do not write an absent key keep it absent. */
  lemma {:induction false} RunKeepsAbsent<V>(c: Cache<V>, ops: seq<Op<V>>, key: string)
    requires key !in c.mm
    requires forall i :: 0 <= i < |ops| ==> !Writes(ops[i], key)
    ensures key !in Run(c, ops).mm
    decreases |ops|
  {
    if |ops| > 0 {
      assert !Writes(ops[0], key);
      var c' := Step(c, ops[0]);
      assert key !in c'.mm;
      forall i | 0 <= i < |ops[1..]|
        ensures !Writes(ops[1..][i], key)
      {
        assert ops[1..][i] == ops[i + 1];
      }
      RunKeepsAbsent(c', ops[1..], key);
    }
  }

  /** Round trip: after Set(key, value) at time t, and any calls that spare
      the key, Get(key) returns the value at every now up to t + ttl, and at
      every now when the cache does not expire. */
  lemma SetThenGet<V>(c: Cache<V>, key: string, value: V, t: int, ops: seq<Op<V>>, now: int)
    requires forall i :: 0 <= i < |ops| ==> Spares(ops[i], key, c.expirable, t + c.ttl)
    requires c.expirable ==> now <= t + c.ttl
    ensures Get(Run(Set(c, key, value, t), ops), key, now) == Read(Some(value), Run(Set(c, key, value, t), ops))
  {
    RunKeepsEntry(Set(c, key, value, t), ops, key, value, t + c.ttl);
  }

  /** Expiry: after Set(key, value) at time t, and any calls that spare the
      key, Get(key) at a now strictly after t + ttl misses and removes the key
      from both tables. */
  lemma SetThenExpire<V>(c: Cache<V>, key: string, value: V, t: int, ops: seq<Op<V>>, now: int)
    requires c.expirable && now > t + c.ttl
    requires forall i :: 0 <= i < |ops| ==> Spares(ops[i], key, c.expirable, t + c.ttl)
    ensures Get(Run(Set(c, key, value, t), ops), key, now).value == None
    ensures Get(Run(Set(c, key, value, t), ops), key, now).next == Cleanup(Run(Set(c, key, value, t), ops), key)
    ensures key !in Get(Run(Set(c, key, value, t), ops), key, now).next.mm
    ensures key !in Get(Run(Set(c, key, value, t), ops), key, now).next.deadlines
  {
    RunKeepsEntry(Set(c, key, value, t), ops, key, value, t + c.ttl);
  }

  /** The deadline is exclusive: a read at the deadline hits, one a
      nanosecond later misses. */
  lemma ExpiryBoundary<V>(c: Cache<V>, key: string)
    requires c.expirable && key in c.mm && key in c.deadlines
    ensures Get(c, key, c.deadlines[key]) == Read(Some(c.mm[key]), c)
    ensures Get(c, key, c.deadlines[key] + 1) == Read(None, Cleanup(c, key))
  {
  }

  /** Under expiration a stored key without a deadline reads as expired and
      is removed. */
  lemma MissingDeadlineExpires<V>(c: Cache<V>, key: string, now: int)
    requires c.expirable && key in c.mm && key !in c.deadlines
    ensures Get(c, key, now) == Read(None, Cleanup(c, key))
    ensures key !in Get(c, key, now).next.mm
  {
  }

  /** A miss on an absent key changes nothing. */
  lemma GetAbsent<V>(c: Cache<V>, key: string, now: int)
    requires key !in c.mm
    ensures Get(c, key, now) == Read(None, c)
    ensures !Is(c, key, now).found && Is(c, key, now).next == c
  {
  }

  /** Overwrite: a second Set of the same key replaces the value and the
      deadline of the first one. */
  lemma SetOverwrites<V>(c: Cache<V>, key: string, v1: V, t1: int, v2: V, t2: int)
    ensures Set(Set(c, key, v1, t1), key, v2, t2) == Set(c, key, v2, t2)
  {
  }

  /** Deleting twice is deleting once. */
  lemma DeleteIdempotent<V>(c: Cache<V>, key: string)
    ensures Cleanup(Cleanup(c, key), key) == Cleanup(c, key)
  {
  }

  /** Deleting an absent key leaves a valid cache unchanged. */
  lemma DeleteAbsent<V>(c: Cache<V>, key: string)
    requires Valid(c) && key !in c.mm
    ensures Cleanup(c, key) == c
  {
  }

  /** After Delete, Get misses. */
  lemma DeleteThenGet<V>(c: Cache<V>, key: string, now: int)
    ensures Get(Cleanup(c, key), key, now) == Read(None, Cleanup(c, key))
  {
  }

  /** After Reset every key misses, the miss changes nothing, and the cache
      takes fresh writes again. */
  lemma ResetThenGet<V>(c: Cache<V>, key: string, now: int, value: V, t: int)
    ensures Get(Reset(c), key, now) == Read(None, Reset(c))
    ensures c.expirable ==> now <= t + c.ttl ==> Get(Set(Reset(c), key, value, t), key, now).value == Some(value)
    ensures !c.expirable ==> Get(Set(Reset(c), key, value, t), key, now).value == Some(value)
  {
  }

  /** A key never written since construction misses, whatever other calls
      came before, and the miss changes nothing. */
  lemma NewMisses<V>(opts: seq<KeyValueOpt>, ops: seq<Op<V>>, key: string, now: int)
    requires forall i :: 0 <= i < |ops| ==> !Writes(ops[i], key)
    ensures Get(Run(New(opts), ops), key, now) == Read(None, Run(New(opts), ops))
  {
    RunKeepsAbsent(New(opts), ops, key);
  }
}
