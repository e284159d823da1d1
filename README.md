# Generic TTL cache: a Dafny model of its entry table

This project models the core of a Go in-process, generic key-value cache
with per-entry time-to-live. A `Cache[TKey, TValue]` holds an `items` map
from key to `item{Value, Timer}` and a default expiry duration. Durations
are integer nanoseconds, and the sentinel `NeverExpire = -1` means "keep
until removed". `Add`, `Replace`, `AddOrReplace`, `TryAdd` and `TryReplace`
validate an optional TTL and check whether the key is present. They then
insert or overwrite the item and arm a `time.AfterFunc` timer, unless the
effective TTL is `NeverExpire`. The timer's callback deletes the key.
`Get` looks a key up. `Remove`, `RemoveAll` and the finalizer stop timers
and delete items. `New` and `Must` build an empty cache after validating the
default TTL.

Layout:

- `wrappers.dfy`: `Option` and `Result`. The variadic TTL argument becomes
  an `Option<int>`, of which only the first element is ever read.
- `errors.dfy`: the three sentinel errors of `Errors.go`.
- `expiration.dfy`: `NeverExpire`, `isExpirationValid`, and how `add` and
  `replace` each turn the optional TTL into the duration they arm a timer for.
- `entry_table.dfy`: the cache state as a value (`Table`) with its invariant
  `Valid`, and one function per operation. Each function's contract states
  the error it reports, the keys present afterwards, the value stored, that
  other items do not change, which timers are stopped or armed, and that the
  invariant is kept.
- `entry_table_lemmas.dfy`: properties relating several operations. Any
  sequence of calls and timer firings from `New` keeps the invariant, so an
  armed timer deletes the entry that armed it and no key has two armed
  timers. `Remove` undoes a successful `Add`, and `Remove` and `RemoveAll`
  are idempotent.
- `cache.dfy`: the `Cache` class. Its fields are updated in place step by
  step, as the Go methods do. Each method is proved to leave exactly the
  state the matching `EntryTable` function gives. The module also holds the
  `New` and `Must` constructors.

Timers are modelled abstractly. A timer is a `TimerId`. The field
`armed: map<TimerId, Timer<K>>` holds the timers that have been neither
stopped nor fired, each with the key its callback captured and the duration
it was armed for. `time.AfterFunc` allocates the fresh id `nextTimer` and
adds it to `armed` (`Cache.Arm`).
`Timer.Stop` removes the id (`Cache.Stop`). The callback is the method
`Cache.Fire(id)`, which may run only while `id` is armed. As in the source,
it deletes its key without checking which item is there now.

The default-TTL field is spelt `defaultExpireAfter` in `New.go` and
`Add.go` but `defaultExpieresAfter` in `Cache.go` and `Replace.go`. These
are two spellings of one field, modelled as `defaultTTL`.

The model follows the code where the code departs from the documented
intent of the cache:

- `Add`, `Replace` and `AddOrReplace` validate the TTL before they check
  for the key. An invalid TTL on a present key therefore reports
  `InvalidExpireAfter` from `Add`.
- The timer callback deletes its key unconditionally. It does not re-check
  that it is still the entry's current timer.
- No operation raises any of the lifecycle events.
- `replace` resolves its TTL with its own guard. It falls back to the
  default on an invalid explicit TTL, where `add` would use the TTL as
  given. Its callers have already refused invalid TTLs, so the two
  resolutions agree wherever they are reached. `ReplaceExpiration`'s
  contract states this.

## Model

| member | source | states |
|---|---|---|
| Expiration.IsExpirationValid | New.go:51-53 | zero is refused, every positive duration is accepted, and among negative durations only NeverExpire (-1) is accepted |
| Expiration.AddExpiration | Add.go:42-45 | `add` uses the explicit TTL when one is passed, otherwise the default; the result is valid when the default and any explicit TTL are |
| Expiration.ReplaceExpiration | Replace.go:47-50 | `replace` uses an explicit TTL only when it is valid, otherwise the default, so its result is always valid; on a validated argument it equals `add`'s resolution |
| EntryTable.New | New.go:27-35 | fails with InvalidExpireAfter iff the default TTL is invalid; on success the table is empty, has no armed timer, keeps the given default and satisfies the invariant |
| EntryTable.AddItem | Add.go:41-59 | the key set grows by exactly the key, the key holds the value, other items are unchanged, a timer is armed iff the effective TTL is not NeverExpire, and it is a new timer for that key and that TTL; the armed timers are the old ones plus that timer, the allocator moves on only when it is armed, and the default is unchanged; on an absent key the invariant is kept |
| EntryTable.ReplaceItem | Replace.go:41-64 | the key holds the value, other items are unchanged, the old timer is no longer armed, a new timer for that key and `replace`'s effective TTL is armed iff that TTL is not NeverExpire; the armed timers are exactly the old ones minus the key's old timer plus the new one, the default is unchanged, and the invariant is kept |
| EntryTable.Add | Add.go:29-39 | an invalid explicit TTL gives InvalidExpireAfter before presence is checked; a present key gives KeyAlreadyExists; both leave the table unchanged; success iff the TTL is acceptable and the key absent, and then the key is added with the value, its timer is armed for `add`'s effective TTL, the other armed timers and the default are unchanged, and the invariant is kept |
| EntryTable.Replace | Replace.go:29-39 | an invalid explicit TTL gives InvalidExpireAfter; an absent key gives KeyNotFound and adds nothing; on success the key set is unchanged, the key holds the value, its old timer is stopped, its new timer is armed for `replace`'s effective TTL, other items, other armed timers and the default are unchanged, and the invariant is kept |
| EntryTable.AddOrReplace | AddOrReplace.go:28-38 | equals Replace on a present key and Add on an absent one; its only error is InvalidExpireAfter; on success the key holds the value and the key set grows by at most that key |
| EntryTable.Remove | Remove.go:14-23 | the key is gone, all other items are unchanged, the armed timers are the old ones minus exactly the removed item's timer, allocator and default are unchanged, and removing an absent key changes nothing |
| EntryTable.RemoveAll | RemoveAll.go:4-13 | no item is left, the armed timers lose exactly those of the removed items, and from a valid table no timer at all stays armed |
| EntryTable.Fire | Add.go:48-52 | the firing timer's key is deleted, exactly that timer is disarmed, and allocator and default are unchanged; in a valid table the only entry deleted is the one whose timer fired, and the invariant is kept |
| EntryTableLemmas.Apply | Cache.go:14-31 | every mutating call and every firing of an armed timer keeps the invariant |
| EntryTableLemmas.RunKeepsValid | Cache.go:14-31 | any sequence of calls and timer firings keeps the invariant |
| EntryTableLemmas.ArmedTimersBelongToTheirEntry | Replace.go:42-58 | in every state reached from New, an armed timer belongs to the item under the key it deletes, and no two armed timers share a key |
| EntryTableLemmas.RunKeepsDefault | Cache.go:17 | no sequence of operations changes the default TTL |
| EntryTableLemmas.AddThenRemove | Remove.go:17-22 | Remove after a successful Add restores the items and armed timers from before the Add |
| EntryTableLemmas.RemoveIdempotent | Remove.go:17-22 | removing a key twice leaves the same table as removing it once |
| EntryTableLemmas.RemoveAllIdempotent | RemoveAll.go:7-12 | RemoveAll on an already cleared table changes nothing |
| CacheEngine.Cache.constructor | New.go:31-35 | the new cache is the empty table of EntryTable.New and satisfies the invariant |
| CacheEngine.Cache.Arm | Add.go:48-52 | `time.AfterFunc` arms a timer with a fresh identity for the given key and duration, and changes nothing else |
| CacheEngine.Cache.Stop | Remove.go:18 | `Timer.Stop` disarms exactly that timer and changes nothing else |
| CacheEngine.Cache.AddItem | Add.go:41-59 | the in-place `add` leaves the state EntryTable.AddItem gives and keeps the invariant |
| CacheEngine.Cache.ReplaceItem | Replace.go:41-64 | the in-place `replace` leaves the state EntryTable.ReplaceItem gives and keeps the invariant |
| CacheEngine.Cache.Add | Add.go:29-39 | returns the error and leaves the state EntryTable.Add gives, keeping the invariant |
| CacheEngine.Cache.Replace | Replace.go:29-39 | returns the error and leaves the state EntryTable.Replace gives, keeping the invariant |
| CacheEngine.Cache.AddOrReplace | AddOrReplace.go:28-38 | returns the error and leaves the state EntryTable.AddOrReplace gives, keeping the invariant |
| CacheEngine.Cache.TryAdd | TryAdd.go:28-30 | returns true iff Add would return no error, and leaves the state Add leaves |
| CacheEngine.Cache.TryReplace | TryReplace.go:28-30 | returns true iff Replace would return no error, and leaves the state Replace leaves |
| CacheEngine.Cache.Get | Get.go:20-27 | found is true iff the key is present, and then the value is the stored one; nothing changes |
| CacheEngine.Cache.Remove | Remove.go:14-23 | leaves the state EntryTable.Remove gives, keeping the invariant |
| CacheEngine.Cache.RemoveAll | RemoveAll.go:4-13 | the loop that stops and deletes key by key leaves the state EntryTable.RemoveAll gives, keeping the invariant |
| CacheEngine.Cache.Finalize | New.go:40-49 | afterwards no item and no armed timer remain, as EntryTable.RemoveAll gives |
| CacheEngine.Cache.Fire | Replace.go:53-57 | the timer callback leaves the state EntryTable.Fire gives and keeps the invariant |
| CacheEngine.New | New.go:27-38 | returns InvalidExpireAfter and no cache iff the TTL is invalid; otherwise a fresh, empty, valid cache holding the given default |
| CacheEngine.Must | Must.go:23-29 | on a valid TTL returns a fresh, non-null cache that is exactly what New builds: empty, with the given default |

## Left out

- The `sync.Mutex`: each method is modelled as one atomic step, so nothing is said about interleavings inside a method.
- Goroutines and wall-clock time: a timer's callback is the explicit step `Cache.Fire`, taken only while the timer is armed. Nothing is claimed about when a timer fires, or that an entry is gone once its TTL has elapsed.
- The race between a timer that has expired and an operation that stops it before the callback takes the mutex: there `Stop` fails, and the receive that follows blocks forever with the mutex held, so the race deadlocks the cache. The model rules this race out, because `Fire` runs only while its timer is armed and `Stop` always succeeds. `ArmedTimersBelongToTheirEntry` is therefore a statement about the sequential steps modelled here only.
- The receive `<-item.Timer.C` after a failed `Stop()` (Replace.go:43-45, Remove.go:18-20, RemoveAll.go:8-10, New.go:44-46): a timer made by `time.AfterFunc` never sends on `C`, so this receive would block forever. In the sequential model `Stop` always succeeds, so that branch is never taken.
- The event fields `ItemAdded`, `ItemReplaced`, `ItemExpired`, `ItemRemoved` and their `*EventArgs` types: they belong to an external `event` package, and no operation raises them.
- `runtime.SetFinalizer`: a garbage-collector hook. `Finalize` is an explicit method instead.
- The error message strings of `Errors.go`: errors are the constructors of `Errors.Error`.
- `time.Duration` is a 64-bit integer. Durations are only compared and stored, never added, so the model uses unbounded `int`.
- CacheEngine.Cache.Get: on a miss it returns an arbitrary value of `V`, standing for Go's zero value; the contract says only that `found` is false.
