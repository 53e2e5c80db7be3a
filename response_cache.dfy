/** `Rails.cache` as the controller uses it: a map from key to an entry that
    carries its expiry time. An entry is live strictly before its expiry; a
    read that finds an expired entry deletes it and misses. */
module ResponseCache {
  import opened Common

  datatype Entry<V> = Entry(value: V, expiresAt: int)

  /** An entry's `expired?`: `expires_at <= now`. */
  predicate Live<V>(e: Entry<V>, now: int) {
    now < e.expiresAt
  }

  /** The value `read(key)` returns. */
  function Lookup<V>(entries: map<string, Entry<V>>, key: string, now: int): (r: Option<V>)
    ensures r.Some? <==> key in entries && Live(entries[key], now)
    ensures r.Some? ==> r.value == entries[key].value
  {
    if key in entries && Live(entries[key], now) then Some(entries[key].value) else None
  }

  /** The map `read(key)` leaves behind: an expired entry under `key` is gone,
      everything else is as it was. */
  function AfterRead<V>(entries: map<string, Entry<V>>, key: string, now: int): (m: map<string, Entry<V>>)
    ensures forall k :: k in m ==> k in entries && m[k] == entries[k]
    ensures forall k :: k in entries && k != key ==> k in m
    ensures key in m <==> Lookup(entries, key, now).Some?
  {
    if key in entries && !Live(entries[key], now) then entries - {key} else entries
  }

  /** The map `write(key, value, expires_in: ttl)` leaves behind. */
  function AfterWrite<V>(entries: map<string, Entry<V>>, key: string, value: V, now: int, ttl: int): (m: map<string, Entry<V>>)
    ensures key in m && m[key] == Entry(value, now + ttl)
    ensures forall k :: k != key ==> (k in m <==> k in entries) && (k in entries ==> m[k] == entries[k])
  {
    entries[key := Entry(value, now + ttl)]
  }

  /** What was written is read back until `ttl` seconds have passed, and not
      from then on. */
  lemma WrittenIsReadUntilExpiry<V>(entries: map<string, Entry<V>>, key: string, value: V, now: int, ttl: int, later: int)
    ensures Lookup(AfterWrite(entries, key, value, now, ttl), key, later) == if later < now + ttl then Some(value) else None
  {
  }

  /** A read never changes what a later read at the same time sees. */
  lemma ReadIsIdempotent<V>(entries: map<string, Entry<V>>, key: string, now: int)
    ensures AfterRead(AfterRead(entries, key, now), key, now) == AfterRead(entries, key, now)
    ensures forall k :: Lookup(AfterRead(entries, key, now), k, now) == Lookup(entries, k, now)
  {
  }

  class Store<V> {
    var entries: map<string, Entry<V>>

    constructor ()
      ensures entries == map[]
    {
      entries := map[];
    }

    /** `Rails.cache.read(key)`. */
    method Read(key: string, now: int) returns (r: Option<V>)
      modifies this
      ensures r == Lookup(old(entries), key, now)
      ensures entries == AfterRead(old(entries), key, now)
    {
      if key in entries {
        if Live(entries[key], now) {
          r := Some(entries[key].value);
        } else {
          entries := entries - {key};
          r := None;
        }
      } else {
        r := None;
      }
    }

    /** `Rails.cache.write(key, value, expires_in: ttl)`. */
    method Write(key: string, value: V, now: int, ttl: int)
      modifies this
      ensures entries == AfterWrite(old(entries), key, value, now, ttl)
    {
      entries := entries[key := Entry(value, now + ttl)];
    }
  }
}
