/** The cache's entry table as a value: the items map, the timers that are
    armed and the key each one's callback deletes, and the default TTL. Each
    public operation is one function from the old table to the new table and
    the error it reports; the class in CacheEngine performs the same steps in
    place and is proved against these functions. */
module EntryTable {
  import opened Wrappers
  import opened Errors
  import opened Expiration

  /** Identity of a timer armed with `time.AfterFunc`. */
  type TimerId = nat

  /** One cached entry: its value and, unless it never expires, the timer
      whose callback deletes it. */
  datatype Item<V> = Item(value: V, timer: Option<TimerId>)

  /** An armed `time.AfterFunc` timer: the key its callback deletes (the key
      the closure captured) and the duration it was armed for. */
  datatype Timer<K> = Timer(key: K, after: int)

  /** The state of one cache.
      - items: at most one item per key;
      - armed: the timers not yet stopped or fired, each with the key its
        callback deletes and the duration it was armed for;
      - nextTimer: every timer ever armed has an id below it, so a newly armed
        timer is distinct from all earlier ones;
      - defaultTTL: the duration used when an operation gets no TTL. */
  datatype Table<K, V> = Table(
    items: map<K, Item<V>>,
    armed: map<TimerId, Timer<K>>,
    nextTimer: TimerId,
    defaultTTL: int)
  {
    /** The invariant every operation keeps: the default TTL is valid, every
        item's timer is armed for that item's key, and every armed timer is
        the timer of the item under the key it deletes. Together these say
        that each key has at most one armed timer and that the callback of an
        armed timer deletes exactly the entry that armed it. */
    ghost predicate Valid() {
      && IsExpirationValid(defaultTTL)
      && (forall k :: k in items && items[k].timer.Some? ==>
            items[k].timer.value in armed && armed[items[k].timer.value].key == k)
      && (forall id :: id in armed ==>
            id < nextTimer && armed[id].key in items && items[armed[id].key].timer == Some(id))
    }
  }

  /** A public operation's outcome: the table afterwards and the error it returns. */
  datatype Step<K, V> = Step(next: Table<K, V>, err: Option<Error>)

  /** The timers held by the items of `items`. */
  function TimersOf<K, V>(items: map<K, Item<V>>): set<TimerId> {
    set k | k in items && items[k].timer.Some? :: items[k].timer.value
  }

  /** The timer held by the item under `key`: none when the key is absent or
      its item never expires. */
  function TimerOfKey<K, V>(items: map<K, Item<V>>, key: K): set<TimerId> {
    if key in items && items[key].timer.Some? then {items[key].timer.value} else {}
  }

  /** `New`: an empty table with the given default, or InvalidExpireAfter. */
  function New<K, V>(expireAfter: int): (r: Result<Table<K, V>, Error>)
    ensures r.Failure? <==> !IsExpirationValid(expireAfter)
    ensures r.Failure? ==> r.error == InvalidExpireAfter
    ensures r.Success? ==> r.value.items == map[] && r.value.armed == map[]
    ensures r.Success? ==> r.value.defaultTTL == expireAfter && r.value.Valid()
  {
    if !IsExpirationValid(expireAfter) then Failure(InvalidExpireAfter)
    else Success(Table(map[], map[], 0, expireAfter))
  }

  /** Stops the timer of the item under `key`, if there is one. */
  function Disarm<K, V>(t: Table<K, V>, key: K): Table<K, V> {
    if key in t.items && t.items[key].timer.Some? then t.(armed := t.armed - {t.items[key].timer.value})
    else t
  }

  /** Stores `value` under `key`, arming a fresh timer for `key` and
      `expiration` unless the expiration is NeverExpire. */
  function Store<K, V>(t: Table<K, V>, key: K, value: V, expiration: int): Table<K, V> {
    if expiration == NeverExpire then
      t.(items := t.items[key := Item(value, None)])
    else
      t.(items := t.items[key := Item(value, Some(t.nextTimer))],
         armed := t.armed[t.nextTimer := Timer(key, expiration)],
         nextTimer := t.nextTimer + 1)
  }

  /** The unexported `add`: resolve the TTL, arm a timer unless it is
      NeverExpire, insert the item. Its callers call it on absent keys only. */
  function AddItem<K, V>(t: Table<K, V>, key: K, value: V, ttl: Option<int>): (r: Table<K, V>)
    ensures r.items.Keys == t.items.Keys + {key}
    ensures r.items[key].value == value
    ensures forall k :: k in t.items && k != key ==> r.items[k] == t.items[k]
    ensures r.items[key].timer.None? <==> AddExpiration(t.defaultTTL, ttl) == NeverExpire
    ensures r.items[key].timer.Some? ==>
      r.armed == t.armed[r.items[key].timer.value := Timer(key, AddExpiration(t.defaultTTL, ttl))]
    ensures t.Valid() && r.items[key].timer.Some? ==> r.items[key].timer.value !in t.armed
    ensures r.items[key].timer.None? ==> r.armed == t.armed
    ensures r.nextTimer == if r.items[key].timer.Some? then t.nextTimer + 1 else t.nextTimer
    ensures r.defaultTTL == t.defaultTTL
    ensures t.Valid() && key !in t.items ==> r.Valid()
  {
    Store(t, key, value, AddExpiration(t.defaultTTL, ttl))
  }

  /** The unexported `replace`: stop the old item's timer, resolve the TTL,
      arm a new timer unless it is NeverExpire, overwrite the item. */
  function ReplaceItem<K, V>(t: Table<K, V>, key: K, value: V, ttl: Option<int>): (r: Table<K, V>)
    ensures r.items.Keys == t.items.Keys + {key}
    ensures r.items[key].value == value
    ensures forall k :: k in t.items && k != key ==> r.items[k] == t.items[k]
    ensures t.Valid() && key in t.items && t.items[key].timer.Some? ==> t.items[key].timer.value !in r.armed
    ensures r.items[key].timer.None? <==> ReplaceExpiration(t.defaultTTL, ttl) == NeverExpire
    ensures r.items[key].timer.Some? ==>
      r.armed == (t.armed - TimerOfKey(t.items, key))[r.items[key].timer.value := Timer(key, ReplaceExpiration(t.defaultTTL, ttl))]
    ensures r.items[key].timer.None? ==> r.armed == t.armed - TimerOfKey(t.items, key)
    ensures r.nextTimer == if r.items[key].timer.Some? then t.nextTimer + 1 else t.nextTimer
    ensures r.defaultTTL == t.defaultTTL
    ensures t.Valid() ==> r.Valid()
  {
    Store(Disarm(t, key), key, value, ReplaceExpiration(t.defaultTTL, ttl))
  }

  /** `Add`: the TTL is checked first, then presence; on success the key is
      new, holds `value`, and no other item changes. */
  function Add<K, V>(t: Table<K, V>, key: K, value: V, ttl: Option<int>): (r: Step<K, V>)
    ensures ttl.Some? && !IsExpirationValid(ttl.value) ==> r == Step(t, Some(InvalidExpireAfter))
    ensures (ttl.None? || IsExpirationValid(ttl.value)) && key in t.items ==> r == Step(t, Some(KeyAlreadyExists))
    ensures r.err.None? <==> (ttl.None? || IsExpirationValid(ttl.value)) && key !in t.items
    ensures r.err.None? ==> r.next.items.Keys == t.items.Keys + {key}
    ensures r.err.None? ==> key in r.next.items && r.next.items[key].value == value
    ensures r.err.None? ==> forall k :: k in t.items ==> r.next.items[k] == t.items[k]
    ensures r.err.None? ==>
      (r.next.items[key].timer.None? <==> AddExpiration(t.defaultTTL, ttl) == NeverExpire)
    ensures r.err.None? && r.next.items[key].timer.Some? ==>
      r.next.armed == t.armed[r.next.items[key].timer.value := Timer(key, AddExpiration(t.defaultTTL, ttl))]
    ensures r.err.None? && r.next.items[key].timer.None? ==> r.next.armed == t.armed
    ensures r.err.None? ==> r.next.defaultTTL == t.defaultTTL
    ensures t.Valid() ==> r.next.Valid()
  {
    if ttl.Some? && !IsExpirationValid(ttl.value) then Step(t, Some(InvalidExpireAfter))
    else if key in t.items then Step(t, Some(KeyAlreadyExists))
    else Step(AddItem(t, key, value, ttl), None)
  }

  /** `Replace`: the TTL is checked first, then presence; on success the key
      set is unchanged, the key holds `value`, its old timer is stopped and no
      other item changes. */
  function Replace<K, V>(t: Table<K, V>, key: K, value: V, ttl: Option<int>): (r: Step<K, V>)
    ensures ttl.Some? && !IsExpirationValid(ttl.value) ==> r == Step(t, Some(InvalidExpireAfter))
    ensures (ttl.None? || IsExpirationValid(ttl.value)) && key !in t.items ==> r == Step(t, Some(KeyNotFound))
    ensures r.err.None? <==> (ttl.None? || IsExpirationValid(ttl.value)) && key in t.items
    ensures r.err.None? ==> r.next.items.Keys == t.items.Keys
    ensures r.err.None? ==> key in r.next.items && r.next.items[key].value == value
    ensures r.err.None? ==> forall k :: k in t.items && k != key ==> r.next.items[k] == t.items[k]
    ensures t.Valid() && r.err.None? && t.items[key].timer.Some? ==> t.items[key].timer.value !in r.next.armed
    ensures r.err.None? ==>
      (r.next.items[key].timer.None? <==> ReplaceExpiration(t.defaultTTL, ttl) == NeverExpire)
    ensures r.err.None? && r.next.items[key].timer.Some? ==>
      r.next.armed == (t.armed - TimerOfKey(t.items, key))[r.next.items[key].timer.value := Timer(key, ReplaceExpiration(t.defaultTTL, ttl))]
    ensures r.err.None? && r.next.items[key].timer.None? ==> r.next.armed == t.armed - TimerOfKey(t.items, key)
    ensures r.err.None? ==> r.next.defaultTTL == t.defaultTTL
    ensures t.Valid() ==> r.next.Valid()
  {
    if ttl.Some? && !IsExpirationValid(ttl.value) then Step(t, Some(InvalidExpireAfter))
    else if key !in t.items then Step(t, Some(KeyNotFound))
    else Step(ReplaceItem(t, key, value, ttl), None)
  }

  /** `AddOrReplace`: after the TTL check it is `Add` on an absent key and
      `Replace` on a present one, so its only possible error is
      InvalidExpireAfter and on success the key holds `value`. */
  function AddOrReplace<K, V>(t: Table<K, V>, key: K, value: V, ttl: Option<int>): (r: Step<K, V>)
    ensures r == if key in t.items then Replace(t, key, value, ttl) else Add(t, key, value, ttl)
    ensures r.err.None? || r.err == Some(InvalidExpireAfter)
    ensures r.err.None? <==> ttl.None? || IsExpirationValid(ttl.value)
    ensures r.err.None? ==> r.next.items.Keys == t.items.Keys + {key}
    ensures r.err.None? ==> key in r.next.items && r.next.items[key].value == value
    ensures t.Valid() ==> r.next.Valid()
  {
    if ttl.Some? && !IsExpirationValid(ttl.value) then Step(t, Some(InvalidExpireAfter))
    else if key !in t.items then Step(AddItem(t, key, value, ttl), None)
    else Step(ReplaceItem(t, key, value, ttl), None)
  }

  /** `Remove`: stop the item's timer and delete it; an absent key is left
      alone without error. */
  function Remove<K, V>(t: Table<K, V>, key: K): (r: Table<K, V>)
    ensures key !in r.items
    ensures r.items == t.items - {key}
    ensures key !in t.items ==> r == t
    ensures key in t.items && t.items[key].timer.Some? ==> t.items[key].timer.value !in r.armed
    ensures r.armed == t.armed - TimerOfKey(t.items, key)
    ensures r.nextTimer == t.nextTimer && r.defaultTTL == t.defaultTTL
    ensures t.Valid() ==> r.Valid()
  {
    if key in t.items then Disarm(t, key).(items := t.items - {key}) else t
  }

  /** `RemoveAll` (and `finalize`): stop every item's timer and delete every
      item. From a valid table no armed timer is left at all. */
  function RemoveAll<K, V>(t: Table<K, V>): (r: Table<K, V>)
    ensures r.items == map[]
    ensures forall id :: id in TimersOf(t.items) ==> id !in r.armed
    ensures r.armed == t.armed - TimersOf(t.items)
    ensures r.nextTimer == t.nextTimer && r.defaultTTL == t.defaultTTL
    ensures t.Valid() ==> r.Valid() && r.armed == map[]
  {
    var r := Table(map[], t.armed - TimersOf(t.items), t.nextTimer, t.defaultTTL);
    assert t.Valid() ==> r.armed == map[] by {
      if t.Valid() {
        forall id | id in t.armed ensures id in TimersOf(t.items) {
          var k := t.armed[id].key;
          assert k in t.items && t.items[k].timer == Some(id);
        }
      }
    }
    r
  }

  /** A timer firing: its callback deletes the key it captured, whatever
      item is there now. In a valid table that item is the one that armed
      the timer, and it is the only item that goes. */
  function Fire<K, V>(t: Table<K, V>, id: TimerId): (r: Table<K, V>)
    requires id in t.armed
    ensures r.items == t.items - {t.armed[id].key}
    ensures id !in r.armed
    ensures r.armed == t.armed - {id}
    ensures r.nextTimer == t.nextTimer && r.defaultTTL == t.defaultTTL
    ensures t.Valid() ==> forall k :: k in t.items && k !in r.items ==> t.items[k].timer == Some(id)
    ensures t.Valid() ==> r.Valid()
  {
    t.(items := t.items - {t.armed[id].key}, armed := t.armed - {id})
  }
}
