/**
 The state of an in-memory key-value cache with optional lazy expiration, and
 every operation on it as a transition from one state value to the next.

 The state has four parts: the value table `mm` (key to value), the deadline
 table `deadlines` (key to an absolute instant in nanoseconds), the
 `expirable` flag and the time-to-live `ttl` (a duration in nanoseconds).
 Instants and durations are unbounded integers; the wall clock is an explicit
 `now` argument.
 */
module CacheState {

  datatype Option<T> = None | Some(value: T)

  /** The configuration options accepted at construction. */
  datatype KeyValueOpt = WithTTL(ttl: int)

  datatype Cache<V> = Cache(mm: map<string, V>, deadlines: map<string, int>, expirable: bool, ttl: int)

  /** The outcome of a read: what it returns and the state it leaves behind. */
  datatype Read<V> = Read(value: Option<V>, next: Cache<V>)

  /** The outcome of an existence check: the found flag and the state it leaves behind. */
  datatype Check<V> = Check(found: bool, next: Cache<V>)

  /** The pairing invariant: with expiration every stored key has a deadline
      and vice versa; without it the deadline table is never filled. */
  predicate Valid<V>(c: Cache<V>)
  {
    && (c.expirable ==> c.mm.Keys == c.deadlines.Keys)
    && (!c.expirable ==> c.deadlines == map[])
  }

  /** A key is live at `now` when it is stored and, under expiration, has a
      deadline that `now` is not strictly after. */
  predicate Live<V>(c: Cache<V>, key: string, now: int)
  {
    key in c.mm && (c.expirable ==> key in c.deadlines && now <= c.deadlines[key])
  }

  /** Both tables of `c` and `d` agree on key `j`. */
  ghost predicate SameAt<V>(c: Cache<V>, d: Cache<V>, j: string)
  {
    && (j in c.mm <==> j in d.mm)
    && (j in c.mm ==> c.mm[j] == d.mm[j])
    && (j in c.deadlines <==> j in d.deadlines)
    && (j in c.deadlines ==> c.deadlines[j] == d.deadlines[j])
  }

  predicate SameConfig<V>(c: Cache<V>, d: Cache<V>)
  {
    c.expirable == d.expirable && c.ttl == d.ttl
  }

  /** The zero state of a freshly allocated cache, before options and Reset. */
  function Zero<V>(): Cache<V>
  {
    Cache(map[], map[], false, 0)
  }

  /** The effect of one option on the state: WithTTL stores the duration and
      switches expiration on. */
  function ApplyOpt<V>(c: Cache<V>, opt: KeyValueOpt): (r: Cache<V>)
    ensures r.expirable && r.ttl == opt.ttl
    ensures r.mm == c.mm && r.deadlines == c.deadlines
  {
    match opt
    case WithTTL(d) => c.(ttl := d, expirable := true)
  }

  /** The options applied in order. */
  function ApplyAll<V>(c: Cache<V>, opts: seq<KeyValueOpt>): (r: Cache<V>)
    ensures r.mm == c.mm && r.deadlines == c.deadlines
    ensures r.expirable == (c.expirable || |opts| > 0)
    ensures |opts| == 0 ==> r.ttl == c.ttl
    ensures |opts| > 0 ==> r.ttl == opts[|opts| - 1].ttl
    decreases |opts|
  {
    if |opts| == 0 then c else ApplyOpt(ApplyAll(c, opts[..|opts| - 1]), opts[|opts| - 1])
  }

  /** Removing a key, both for an explicit Delete and for an expired read:
      always from the value table, from the deadline table only under
      expiration. */
  function Cleanup<V>(c: Cache<V>, key: string): (r: Cache<V>)
    ensures key !in r.mm
    ensures c.expirable ==> key !in r.deadlines
    ensures !c.expirable ==> r.deadlines == c.deadlines
    ensures forall j :: j != key ==> SameAt(c, r, j)
    ensures SameConfig(c, r)
    ensures Valid(c) ==> Valid(r)
  {
    var d := if c.expirable then c.deadlines - {key} else c.deadlines;
    c.(mm := c.mm - {key}, deadlines := d)
  }

  /** Lazy-expiring read. */
  function Get<V>(c: Cache<V>, key: string, now: int): (r: Read<V>)
    ensures r.value.Some? <==> Live(c, key, now)
    ensures r.value.Some? ==> r.value.value == c.mm[key]
    ensures key !in c.mm ==> r.next == c
    ensures Live(c, key, now) ==> r.next == c
    ensures key in c.mm && !Live(c, key, now) ==> r.next == Cleanup(c, key)
    ensures SameConfig(c, r.next)
    ensures Valid(c) ==> Valid(r.next)
  {
    if key !in c.mm then
      Read(None, c)
    else if c.expirable && key !in c.deadlines then
      Read(None, Cleanup(c, key))
    else if c.expirable && now > c.deadlines[key] then
      Read(None, Cleanup(c, key))
    else
      Read(Some(c.mm[key]), c)
  }

  /** Existence check: the found flag of Get, with Get's side effect. */
  function Is<V>(c: Cache<V>, key: string, now: int): (r: Check<V>)
    ensures r.found <==> Live(c, key, now)
    ensures r.found == Get(c, key, now).value.Some?
    ensures r.next == Get(c, key, now).next
  {
    var g := Get(c, key, now);
    Check(g.value.Some?, g.next)
  }

  /** Upsert; under expiration the deadline becomes now + ttl. */
  function Set<V>(c: Cache<V>, key: string, value: V, now: int): (r: Cache<V>)
    ensures key in r.mm && r.mm[key] == value
    ensures c.expirable ==> key in r.deadlines && r.deadlines[key] == now + c.ttl
    ensures !c.expirable ==> r.deadlines == c.deadlines
    ensures forall j :: j != key ==> SameAt(c, r, j)
    ensures SameConfig(c, r)
    ensures Valid(c) ==> Valid(r)
  {
    var d := if c.expirable then c.deadlines[key := now + c.ttl] else c.deadlines;
    c.(mm := c.mm[key := value], deadlines := d)
  }

  /** Empties the value table, and the deadline table under expiration;
      the configuration is kept. */
  function Reset<V>(c: Cache<V>): (r: Cache<V>)
    ensures r.mm == map[]
    ensures c.expirable ==> r.deadlines == map[]
    ensures !c.expirable ==> r.deadlines == c.deadlines
    ensures SameConfig(c, r)
    ensures Valid(c) ==> Valid(r)
    ensures forall key, now :: !Live(r, key, now)
  {
    var d := if c.expirable then map[] else c.deadlines;
    c.(mm := map[], deadlines := d)
  }

  /** Construction: the zero state, then the options in order, then Reset. */
  function New<V>(opts: seq<KeyValueOpt>): (r: Cache<V>)
    ensures Valid(r)
    ensures r.mm == map[] && r.deadlines == map[]
    ensures r.expirable == (|opts| > 0)
    ensures |opts| > 0 ==> r.ttl == opts[|opts| - 1].ttl
    ensures forall key, now :: !Live(r, key, now)
  {
    Reset(ApplyAll(Zero(), opts))
  }
}
