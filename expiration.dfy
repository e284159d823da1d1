/** Durations (integer nanoseconds), the NeverExpire sentinel, and how an
    operation turns its optional TTL argument into the duration it arms a
    timer for. */
module Expiration {
  import opened Wrappers

  /** The reserved duration meaning "keep the item until it is removed". */
  const NeverExpire: int := -1

  /** A duration is accepted iff it is strictly positive or the sentinel:
      zero and every negative duration other than NeverExpire are refused. */
  predicate IsExpirationValid(expiration: int)
    ensures IsExpirationValid(expiration) ==> expiration != 0
    ensures expiration < 0 ==> (IsExpirationValid(expiration) <==> expiration == NeverExpire)
    ensures expiration > 0 ==> IsExpirationValid(expiration)
  {
    expiration > 0 || expiration == NeverExpire
  }

  /** The duration `add` uses: the explicit TTL whenever one is passed,
      otherwise the cache default. `add` itself does not look at validity;
      its callers have checked the explicit TTL already. */
  function AddExpiration(defaultTTL: int, ttl: Option<int>): (expiration: int)
    ensures ttl.Some? ==> expiration == ttl.value
    ensures ttl.None? ==> expiration == defaultTTL
    ensures IsExpirationValid(defaultTTL) && (ttl.None? || IsExpirationValid(ttl.value))
            ==> IsExpirationValid(expiration)
  {
    if ttl.Some? then ttl.value else defaultTTL
  }

  /** The duration `replace` uses: the explicit TTL only when it is valid,
      otherwise the cache default, so the result is valid whenever the
      default is. On an argument its callers have validated it agrees with
      the resolution `add` performs. */
  function ReplaceExpiration(defaultTTL: int, ttl: Option<int>): (expiration: int)
    ensures IsExpirationValid(defaultTTL) ==> IsExpirationValid(expiration)
    ensures ttl.Some? && IsExpirationValid(ttl.value) ==> expiration == ttl.value
    ensures ttl.None? || !IsExpirationValid(ttl.value) ==> expiration == defaultTTL
    ensures ttl.None? || IsExpirationValid(ttl.value) ==> expiration == AddExpiration(defaultTTL, ttl)
  {
    if ttl.Some? && (ttl.value > 0 || ttl.value == NeverExpire) then ttl.value else defaultTTL
  }
}
