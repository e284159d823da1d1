/** Properties that relate several operations of the entry table: every
    state reached from `New` by any sequence of calls and timer firings keeps
    the invariant, removal undoes an insertion, and the removals are
    idempotent. */
module EntryTableLemmas {
  import opened Wrappers
  import opened Expiration
  import opened EntryTable

  /** Everything that can change a cache one step at a time: a public
      mutating call or the firing of an armed timer. `Get`, `TryAdd` and
      `TryReplace` change nothing beyond what `Add` and `Replace` do. */
  datatype Op<K, V> =
    | AddOp(key: K, value: V, ttl: Option<int>)
    | ReplaceOp(key: K, value: V, ttl: Option<int>)
    | AddOrReplaceOp(key: K, value: V, ttl: Option<int>)
    | RemoveOp(key: K)
    | RemoveAllOp
    | FireOp(id: TimerId)

  /** The table after one step. A timer that is not armed does not fire. */
  function Apply<K, V>(t: Table<K, V>, op: Op<K, V>): (r: Table<K, V>)
    ensures t.Valid() ==> r.Valid()
  {
    match op
    case AddOp(key, value, ttl) => Add(t, key, value, ttl).next
    case ReplaceOp(key, value, ttl) => Replace(t, key, value, ttl).next
    case AddOrReplaceOp(key, value, ttl) => AddOrReplace(t, key, value, ttl).next
    case RemoveOp(key) => Remove(t, key)
    case RemoveAllOp => RemoveAll(t)
    case FireOp(id) => if id in t.armed then Fire(t, id) else t
  }

  /** The table after a sequence of steps, one after the other. */
  function Run<K, V>(t: Table<K, V>, ops: seq<Op<K, V>>): Table<K, V>
    decreases |ops|
  {
    if ops == [] then t else Run(Apply(t, ops[0]), ops[1..])
  }

  /** The invariant survives any sequence of steps. */
  lemma {:induction false} RunKeepsValid<K, V>(t: Table<K, V>, ops: seq<Op<K, V>>)
    requires t.Valid()
    ensures Run(t, ops).Valid()
    decreases |ops|
  {
    if ops != [] {
      RunKeepsValid(Apply(t, ops[0]), ops[1..]);
    }
  }

  /** In every state reached from a cache built by `New`, an armed timer's
      callback deletes exactly the entry that armed it, and no key has two
      armed timers. This holds for the sequential interleavings modelled
      here, where a timer fires only while it is still armed. */
  lemma ArmedTimersBelongToTheirEntry<K, V>(expireAfter: int, ops: seq<Op<K, V>>, id: TimerId, other: TimerId)
    requires IsExpirationValid(expireAfter)
    requires id in Run(New<K, V>(expireAfter).value, ops).armed
    ensures var t := Run(New<K, V>(expireAfter).value, ops);
      t.armed[id].key in t.items && t.items[t.armed[id].key].timer == Some(id)
    ensures var t := Run(New<K, V>(expireAfter).value, ops);
      other in t.armed && t.armed[other].key == t.armed[id].key ==> other == id
  {
    RunKeepsValid(New<K, V>(expireAfter).value, ops);
  }

  /** Every state reached from `New` keeps the default TTL it was built with. */
  lemma {:induction false} RunKeepsDefault<K, V>(t: Table<K, V>, ops: seq<Op<K, V>>)
    ensures Run(t, ops).defaultTTL == t.defaultTTL
    decreases |ops|
  {
    if ops != [] {
      var u := Apply(t, ops[0]);
      RunKeepsDefault(u, ops[1..]);
    }
  }

  /** Removing a key that a successful `Add` inserted gives back the items
      and armed timers from before the `Add`; only the timer allocator has
      moved on. */
  lemma AddThenRemove<K, V>(t: Table<K, V>, key: K, value: V, ttl: Option<int>)
    requires t.Valid()
    requires Add(t, key, value, ttl).err.None?
    ensures var u := Remove(Add(t, key, value, ttl).next, key);
      u.items == t.items && u.armed == t.armed && u.defaultTTL == t.defaultTTL
  {
  }

  /** A second `Remove` of the same key changes nothing. */
  lemma RemoveIdempotent<K, V>(t: Table<K, V>, key: K)
    ensures Remove(Remove(t, key), key) == Remove(t, key)
  {
  }

  /** `RemoveAll` on a table it has already cleared changes nothing. */
  lemma RemoveAllIdempotent<K, V>(t: Table<K, V>)
    ensures RemoveAll(RemoveAll(t)) == RemoveAll(t)
  {
  }
}
