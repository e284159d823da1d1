/** The three sentinel errors the cache operations return (Errors.go). */
module Errors {

  datatype Error =
    | InvalidExpireAfter   // a TTL that is neither positive nor NeverExpire
    | KeyAlreadyExists     // Add on a key that is present
    | KeyNotFound          // Replace on a key that is absent
}
