/**
  The one-day `localStorage` caches in front of the sheet and video fetches. The
  clock is a parameter (`Date.now()` in milliseconds), and storage is a value passed
  in and, for the v2 and Makeshop copies, handed back after a possible removal.
  JSON encoding and storage failures are not part of this model.
 */
module Cache {
  import opened Wrappers

  /** `24 * 60 * 60 * 1000`: the lifetime of every cache here, in milliseconds. */
  const Ttl: int := 24 * 60 * 60 * 1000

  /** What was stored: the data and the time it was stored at. */
  datatype Entry<T> = Entry(data: T, time: int)

  /** `setCachedData` / `setCache` / the video cache write: the data stamped with the current time. */
  function Store<T>(data: T, now: int): (e: Option<Entry<T>>)
    ensures e.Some? && e.value.data == data && e.value.time == now
  {
    Some(Entry(data, now))
  }

  /**
    Archived `getCachedData` (and the video caches of both YouTube widgets): the data
    when both keys are present and the entry is strictly younger than a day; nothing
    is removed.
   */
  function ArchiveGet<T>(stored: Option<Entry<T>>, now: int): (r: Option<T>)
    ensures r.Some? <==> stored.Some? && now - stored.value.time < Ttl
    ensures r.Some? ==> r.value == stored.value.data
  {
    if stored.Some? && now - stored.value.time < Ttl then Some(stored.value.data) else None
  }

  /** v2 and Makeshop `getCache`: the answer, and the storage left behind. */
  datatype Lookup<T> = Lookup(result: Option<T>, left: Option<Entry<T>>)

  /**
    v2 and Makeshop `getCache`: an entry older than a day is removed and nothing is
    returned; otherwise the data comes back and storage is untouched.
   */
  function V2Get<T>(stored: Option<Entry<T>>, now: int): (r: Lookup<T>)
    ensures r.result.Some? <==> stored.Some? && now - stored.value.time <= Ttl
    ensures r.result.Some? ==> r.result.value == stored.value.data && r.left == stored
    ensures r.result.None? ==> r.left.None?
  {
    if stored.None? then Lookup(None, None)
    else if now - stored.value.time > Ttl then Lookup(None, None)
    else Lookup(Some(stored.value.data), stored)
  }

  /** Within a day of storing, both caches give the stored data back. */
  lemma GetAfterStore<T>(data: T, stored: int, now: int)
    requires stored <= now < stored + Ttl
    ensures ArchiveGet(Store(data, stored), now) == Some(data)
    ensures V2Get(Store(data, stored), now) == Lookup(Some(data), Store(data, stored))
  {
  }

  /** An entry that has expired stays expired later on. */
  lemma ExpiryIsFinal<T>(stored: Option<Entry<T>>, now: int, later: int)
    requires now <= later
    ensures ArchiveGet(stored, now).None? ==> ArchiveGet(stored, later).None?
    ensures V2Get(stored, now).result.None? ==> V2Get(stored, later).result.None?
  {
  }

  /** After the v2 cache has removed an expired entry, every later lookup misses too. */
  lemma EvictionIsFinal<T>(stored: Option<Entry<T>>, now: int, later: int)
    requires V2Get(stored, now).result.None?
    ensures V2Get(V2Get(stored, now).left, later) == Lookup(None, None)
  {
  }

  /** Exactly one day after storing, the archived cache misses and the v2 cache still hits. */
  lemma BoundaryDiffers<T>(data: T, stored: int)
    ensures ArchiveGet(Store(data, stored), stored + Ttl).None?
    ensures V2Get(Store(data, stored), stored + Ttl).result == Some(data)
  {
  }
}
