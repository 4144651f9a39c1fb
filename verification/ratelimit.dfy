/** The per-sender counter kept in the cache under the key
    `"<sender id>_friend_requests"`. An entry is a count with an absolute
    expiry time; a read after the expiry sees the default 0. */
module RateLimit {
  import opened Users

  /** Successful sends a sender may make while its counter is live. */
  const Limit: nat := 3

  /** The timeout, in seconds, every write of the counter sets. */
  const Window: nat := 60

  datatype Counter = Counter(count: nat, expiry: nat)

  /** One entry per sender id; the id stands for the whole cache key. */
  type Cache = map<UserId, Counter>

  /** An entry is live strictly before its expiry time. */
  predicate Live(c: Counter, now: nat)
  {
    now < c.expiry
  }

  /** `cache.get(key, 0)`: the stored count while the entry is live, and 0
      once it has expired or when it was never written. */
  function Count(cache: Cache, key: UserId, now: nat): nat
  {
    if key in cache && Live(cache[key], now) then cache[key].count else 0
  }

  /** `cache.set(key, value, timeout=Window)`: overwrites the entry and
      restarts its expiry at `now + Window`; no other key changes. */
  function Set(cache: Cache, key: UserId, value: nat, now: nat): (r: Cache)
    ensures r.Keys == cache.Keys + {key}
    ensures r[key] == Counter(value, now + Window)
    ensures forall k | k in cache && k != key :: r[k] == cache[k]
  {
    cache[key := Counter(value, now + Window)]
  }

  /** Reading back a value just written gives it for `Window` seconds and
      0 from then on. */
  lemma SetThenCount(cache: Cache, key: UserId, value: nat, now: nat, later: nat)
    requires now <= later
    ensures Count(Set(cache, key, value, now), key, later) == if later < now + Window then value else 0
  {
  }

  /** A write under one key never changes what another key reads. */
  lemma SetKeepsOtherCounts(cache: Cache, key: UserId, value: nat, now: nat, other: UserId, later: nat)
    requires other != key
    ensures Count(Set(cache, key, value, now), other, later) == Count(cache, other, later)
  {
  }
}
