/**
 The cache object. Its four fields are updated in place; every method is
 proved to move `Model()` exactly as the matching CacheState transition does,
 and to keep the pairing invariant `Valid()`. Options are applied only inside
 the constructor, as in NewCache: no caller can apply one afterwards.
 */
module InMemKV {
  import opened CacheState

  class InMemKeyValue<V> {
    var mm: map<string, V>
    var deadlines: map<string, int>
    var expirable: bool
    var ttl: int

    /** The value the fields currently stand for. */
    function Model(): Cache<V>
      reads this
    {
      Cache(mm, deadlines, expirable, ttl)
    }

    predicate Valid()
      reads this
    {
      CacheState.Valid(Model())
    }

    /** NewCache: start from the zero state, apply each option in turn (the
        closure WithTTL returns stores the duration and switches expiration
        on), then Reset. */
    constructor (opts: seq<KeyValueOpt>)
      ensures Model() == New(opts)
      ensures Valid()
    {
      mm, deadlines, expirable, ttl := map[], map[], false, 0;
      new;
      var i := 0;
      while i < |opts|
        invariant 0 <= i <= |opts|
        invariant Model() == ApplyAll(Zero(), opts[..i])
      {
        ttl := opts[i].ttl;
        expirable := true;
        assert opts[..i + 1][..i] == opts[..i];
        i := i + 1;
      }
      assert opts[..|opts|] == opts;
      Reset();
    }

    method Get(key: string, now: int) returns (r: Option<V>)
      modifies this
      ensures r == CacheState.Get(old(Model()), key, now).value
      ensures Model() == CacheState.Get(old(Model()), key, now).next
      ensures old(Valid()) ==> Valid()
    {
      if key !in mm {
        return None;
      }
      var v := mm[key];
      if expirable {
        if key !in deadlines {
          Cleanup(key);
          return None;
        }
        var d := deadlines[key];
        if now > d {
          Cleanup(key);
          return None;
        }
      }
      return Some(v);
    }

    method Cleanup(key: string)
      modifies this
      ensures Model() == CacheState.Cleanup(old(Model()), key)
      ensures old(Valid()) ==> Valid()
    {
      mm := mm - {key};
      if expirable {
        deadlines := deadlines - {key};
      }
    }

    method Set(key: string, value: V, now: int)
      modifies this
      ensures Model() == CacheState.Set(old(Model()), key, value, now)
      ensures old(Valid()) ==> Valid()
    {
      mm := mm[key := value];
      if expirable {
        deadlines := deadlines[key := now + ttl];
      }
    }

    method Delete(key: string)
      modifies this
      ensures Model() == CacheState.Cleanup(old(Model()), key)
      ensures old(Valid()) ==> Valid()
    {
      Cleanup(key);
    }

    method Is(key: string, now: int) returns (ok: bool)
      modifies this
      ensures ok == CacheState.Is(old(Model()), key, now).found
      ensures Model() == CacheState.Is(old(Model()), key, now).next
      ensures old(Valid()) ==> Valid()
    {
      var r := Get(key, now);
      ok := r.Some?;
    }

    method Reset()
      modifies this
      ensures Model() == CacheState.Reset(old(Model()))
      ensures old(Valid()) ==> Valid()
    {
      mm := map[];
      if expirable {
        deadlines := map[];
      }
    }
  }
}
