/** The cache object. Its methods update the fields in place, step by step,
    the way the Go methods do, and each is proved to leave the state that the
    matching EntryTable function describes. The mutex is not modelled: each
    method runs as one atomic step. A timer's `AfterFunc` callback is the
    method `Fire`, callable only while that timer is armed. */
module CacheEngine {
  import opened Wrappers
  import opened Errors
  import opened Expiration
  import EntryTable

  class Cache<K(==), V(0)> {
    /** The entries (the Go field `items`). */
    var items: map<K, EntryTable.Item<V>>
    /** The timers armed and not yet stopped or fired, each with the key its
        callback deletes and the duration it was armed for. */
    var armed: map<EntryTable.TimerId, EntryTable.Timer<K>>
    /** Identity the next armed timer gets. */
    var nextTimer: EntryTable.TimerId
    /** The default TTL (the field spelt both `defaultExpireAfter` and
        `defaultExpieresAfter` in the source). */
    var defaultTTL: int

    /** The whole state as an EntryTable value. */
    function State(): EntryTable.Table<K, V>
      reads this
    {
      EntryTable.Table(items, armed, nextTimer, defaultTTL)
    }

    ghost predicate Valid()
      reads this
    {
      State().Valid()
    }

    /** The struct literal in `New`: an empty cache with the given default. */
    constructor (expireAfter: int)
      requires IsExpirationValid(expireAfter)
      ensures Valid()
      ensures State() == EntryTable.New<K, V>(expireAfter).value
    {
      items := map[];
      armed := map[];
      nextTimer := 0;
      defaultTTL := expireAfter;
    }

    /** `time.AfterFunc`: arms a fresh timer that fires after `after` and
        whose callback deletes `key`. */
    method Arm(key: K, after: int) returns (id: EntryTable.TimerId)
      modifies this
      ensures id == old(nextTimer) && nextTimer == id + 1
      ensures armed == old(armed)[id := EntryTable.Timer(key, after)]
      ensures items == old(items) && defaultTTL == old(defaultTTL)
    {
      id := nextTimer;
      armed := armed[id := EntryTable.Timer(key, after)];
      nextTimer := nextTimer + 1;
    }

    /** `Timer.Stop`: the timer will not fire any more. */
    method Stop(id: EntryTable.TimerId)
      modifies this
      ensures armed == old(armed) - {id}
      ensures items == old(items) && nextTimer == old(nextTimer) && defaultTTL == old(defaultTTL)
    {
      armed := armed - {id};
    }

    /** `add`: resolve the TTL, arm a timer unless it is NeverExpire, insert. */
    method AddItem(key: K, value: V, ttl: Option<int>)
      requires Valid() && key !in items
      modifies this
      ensures Valid()
      ensures State() == EntryTable.AddItem(old(State()), key, value, ttl)
    {
      var expiration := defaultTTL;
      if ttl.Some? {
        expiration := ttl.value;
      }
      var timer: Option<EntryTable.TimerId> := None;
      if expiration != NeverExpire {
        var id := Arm(key, expiration);
        timer := Some(id);
      }
      items := items[key := EntryTable.Item(value, timer)];
    }

    /** `replace`: stop the old timer, resolve the TTL (an invalid explicit
        TTL falls back to the default), arm a timer unless it is NeverExpire,
        overwrite. */
    method ReplaceItem(key: K, value: V, ttl: Option<int>)
      requires Valid()
      modifies this
      ensures Valid()
      ensures State() == EntryTable.ReplaceItem(old(State()), key, value, ttl)
    {
      if key in items && items[key].timer.Some? {
        Stop(items[key].timer.value);
      }
      var expiration := defaultTTL;
      if ttl.Some? && (ttl.value > 0 || ttl.value == NeverExpire) {
        expiration := ttl.value;
      }
      var timer: Option<EntryTable.TimerId> := None;
      if expiration != NeverExpire {
        var id := Arm(key, expiration);
        timer := Some(id);
      }
      items := items[key := EntryTable.Item(value, timer)];
    }

    /** `Add`: fails on an invalid explicit TTL, then on a present key;
        otherwise inserts. */
    method Add(key: K, value: V, ttl: Option<int>) returns (err: Option<Error>)
      requires Valid()
      modifies this
      ensures Valid()
      ensures EntryTable.Step(State(), err) == EntryTable.Add(old(State()), key, value, ttl)
    {
      if ttl.Some? && !IsExpirationValid(ttl.value) {
        return Some(InvalidExpireAfter);
      }
      if key in items {
        return Some(KeyAlreadyExists);
      }
      AddItem(key, value, ttl);
      err := None;
    }

    /** `Replace`: fails on an invalid explicit TTL, then on an absent key;
        otherwise overwrites. */
    method Replace(key: K, value: V, ttl: Option<int>) returns (err: Option<Error>)
      requires Valid()
      modifies this
      ensures Valid()
      ensures EntryTable.Step(State(), err) == EntryTable.Replace(old(State()), key, value, ttl)
    {
      if ttl.Some? && !IsExpirationValid(ttl.value) {
        return Some(InvalidExpireAfter);
      }
      if key !in items {
        return Some(KeyNotFound);
      }
      ReplaceItem(key, value, ttl);
      err := None;
    }

    /** `AddOrReplace`: fails only on an invalid explicit TTL; otherwise
        `add` on an absent key and `replace` on a present one. */
    method AddOrReplace(key: K, value: V, ttl: Option<int>) returns (err: Option<Error>)
      requires Valid()
      modifies this
      ensures Valid()
      ensures EntryTable.Step(State(), err) == EntryTable.AddOrReplace(old(State()), key, value, ttl)
    {
      if ttl.Some? && !IsExpirationValid(ttl.value) {
        return Some(InvalidExpireAfter);
      }
      if key !in items {
        AddItem(key, value, ttl);
      } else {
        ReplaceItem(key, value, ttl);
      }
      err := None;
    }

    /** `TryAdd`: `Add` with its error turned into a success flag. */
    method TryAdd(key: K, value: V, ttl: Option<int>) returns (success: bool)
      requires Valid()
      modifies this
      ensures Valid()
      ensures success <==> EntryTable.Add(old(State()), key, value, ttl).err.None?
      ensures State() == EntryTable.Add(old(State()), key, value, ttl).next
    {
      var err := Add(key, value, ttl);
      success := err.None?;
    }

    /** `TryReplace`: `Replace` with its error turned into a success flag. */
    method TryReplace(key: K, value: V, ttl: Option<int>) returns (success: bool)
      requires Valid()
      modifies this
      ensures Valid()
      ensures success <==> EntryTable.Replace(old(State()), key, value, ttl).err.None?
      ensures State() == EntryTable.Replace(old(State()), key, value, ttl).next
    {
      var err := Replace(key, value, ttl);
      success := err.None?;
    }

    /** `Get`: the stored value and true when the key is present; the zero
        value of V and false otherwise. Nothing changes. */
    method Get(key: K) returns (value: V, found: bool)
      ensures found <==> key in items
      ensures found ==> value == items[key].value
    {
      if key in items {
        return items[key].value, true;
      }
      var zero: V := *;
      return zero, false;
    }

    /** `Remove`: stop the item's timer and delete it; nothing happens on an
        absent key. */
    method Remove(key: K)
      requires Valid()
      modifies this
      ensures Valid()
      ensures State() == EntryTable.Remove(old(State()), key)
    {
      if key in items {
        if items[key].timer.Some? {
          Stop(items[key].timer.value);
        }
        items := items - {key};
      }
    }

    /** `RemoveAll`: for each key in turn, stop its timer and delete it. */
    method RemoveAll()
      requires Valid()
      modifies this
      ensures Valid()
      ensures State() == EntryTable.RemoveAll(old(State()))
    {
      var keys := items.Keys;
      while keys != {}
        invariant Valid()
        invariant keys == items.Keys
        invariant nextTimer == old(nextTimer) && defaultTTL == old(defaultTTL)
        decreases keys
      {
        var key :| key in keys;
        ghost var before := State();
        if items[key].timer.Some? {
          Stop(items[key].timer.value);
        }
        items := items - {key};
        assert State() == EntryTable.Remove(before, key);
        keys := keys - {key};
      }
    }

    /** `finalize`, run when the cache is collected: its loop is the same as
        `RemoveAll`'s. */
    method Finalize()
      requires Valid()
      modifies this
      ensures Valid()
      ensures items == map[] && armed == map[]
      ensures State() == EntryTable.RemoveAll(old(State()))
    {
      RemoveAll();
    }

    /** A timer's `AfterFunc` callback: it deletes the key it was armed for,
        without checking which item is there now. */
    method Fire(id: EntryTable.TimerId)
      requires Valid() && id in armed
      modifies this
      ensures Valid()
      ensures State() == EntryTable.Fire(old(State()), id)
    {
      var key := armed[id].key;
      armed := armed - {id};
      items := items - {key};
    }
  }

  /** `New`: a fresh empty cache, or InvalidExpireAfter and no cache. */
  method New<K(==), V(0)>(expireAfter: int) returns (cache: Cache?<K, V>, err: Option<Error>)
    ensures err.Some? <==> !IsExpirationValid(expireAfter)
    ensures err.Some? ==> cache == null && err == Some(InvalidExpireAfter)
    ensures err.None? ==> cache != null && fresh(cache) && cache.Valid()
    ensures err.None? ==> cache.State() == EntryTable.New<K, V>(expireAfter).value
  {
    if !IsExpirationValid(expireAfter) {
      return null, Some(InvalidExpireAfter);
    }
    cache := new Cache(expireAfter);
    err := None;
  }

  /** `Must`: `New` that panics on an invalid TTL; the panic is the
      precondition, and the result is never null. */
  method Must<K(==), V(0)>(expireAfter: int) returns (cache: Cache<K, V>)
    requires IsExpirationValid(expireAfter)
    ensures fresh(cache) && cache.Valid()
    ensures cache.items == map[] && cache.defaultTTL == expireAfter
    ensures cache.State() == EntryTable.New<K, V>(expireAfter).value
  {
    var c, err := New<K, V>(expireAfter);
    cache := c;
  }
}
