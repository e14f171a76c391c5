/** The time-limited cache of the featured-products section
    (web/components/home/Featured.tsx, `setWithExpiry` and `getWithExpiry`).
    The clock is the `now` parameter, in milliseconds. */
module ExpiryCache {
  import opened Wrappers
  import opened LocalStore

  /** What a read finds: the value handed back (None stands for `null`), and
      whether the key is removed from storage. */
  datatype Reading = Reading(result: Option<Value>, evict: bool)

  /** An entry that still holds a value at time `now`. A stamp of exactly `now`
      has not expired yet. */
  function Live(d: Doc, now: int): (live: bool)
    ensures live ==> d.ExpiringDoc? && d.value.Truthy() && d.expiry.At? && now <= d.expiry.ms
    ensures live ==> !Expired(d, now)
  {
    d.ExpiringDoc? && d.value.Truthy() && d.expiry.Truthy() && now <= d.expiry.ms
  }

  /** An entry whose value and stamp are both set, but whose time is past. */
  function Expired(d: Doc, now: int): (expired: bool)
    ensures expired ==> d.ExpiringDoc? && d.value.Truthy() && d.expiry.At? && d.expiry.ms < now
  {
    d.ExpiringDoc? && d.value.Truthy() && d.expiry.Truthy() && now > d.expiry.ms
  }

  /** An entry whose value and stamp are both set is live up to and including its
      stamp and expired from then on, never both; one that is expired stays expired. */
  lemma LiveThenExpired(d: Doc, now: int, later: int)
    requires d.ExpiringDoc? && d.value.Truthy() && d.expiry.Truthy()
    ensures Live(d, now) <==> now <= d.expiry.ms
    ensures Expired(d, now) <==> !Live(d, now)
    ensures Expired(d, now) && now <= later ==> Expired(d, later)
  {
  }

  /** What `getWithExpiry` does with what it finds under its key at time `now`. */
  function Read(stored: Option<Doc>, now: int): (r: Reading)
    // a value comes back exactly when a live entry is there, and it is that entry's value
    ensures r.result.Some? <==> stored.Some? && Live(stored.value, now)
    ensures r.result.Some? ==> r.result.value == stored.value.value
    // the key is removed exactly for text that is not JSON and for an expired entry
    ensures r.evict <==> stored == Some(Unparseable) || (stored.Some? && Expired(stored.value, now))
    ensures r.evict ==> r.result.None?
    ensures stored.None? ==> r == Reading(None, false)
    // the empty string is turned away before it is parsed, and stays
    ensures stored == Some(EmptyText) ==> r == Reading(None, false)
  {
    match stored
    case None => Reading(None, false)
    case Some(EmptyText) => Reading(None, false)
    case Some(Unparseable) => Reading(None, true)
    case Some(ExpiringDoc(value, expiry)) =>
      if !expiry.Truthy() || !value.Truthy() then Reading(None, false)
      else if now > expiry.ms then Reading(None, true)
      else Reading(Some(value), false)
    // an array has no `expiry` property, so it reads as a missing field
    case Some(_) => Reading(None, false)
  }

  /** `setWithExpiry(key, value, ttl)` at time `now`. */
  method SetWithExpiry(storage: Storage, key: string, value: Value, ttl: int, now: int)
    modifies storage
    ensures storage.entries ==
      Saved(storage.serializedLength, storage.fits, old(storage.entries), key, ExpiringDoc(value, At(now + ttl)))
  {
    SafeLocalStorage(storage, key, ExpiringDoc(value, At(now + ttl)));
  }

  /** `getWithExpiry(key)` at time `now`. */
  method GetWithExpiry(storage: Storage, key: string, now: int) returns (r: Option<Value>)
    modifies storage
    ensures r == Read(Lookup(old(storage.entries), key), now).result
    ensures storage.entries ==
      if Read(Lookup(old(storage.entries), key), now).evict then old(storage.entries) - {key}
      else old(storage.entries)
  {
    var stored := storage.GetItem(key);
    if stored.None? {
      return None;
    }
    match stored.value
    case Unparseable =>
      storage.RemoveItem(key);
      return None;
    case ExpiringDoc(value, expiry) =>
      if !expiry.Truthy() || !value.Truthy() {
        return None;
      }
      if now > expiry.ms {
        storage.RemoveItem(key);
        return None;
      }
      return Some(value);
    case CartDoc(_) =>
      return None;
    case WishlistDoc(_) =>
      return None;
    case EmptyText =>
      return None;
  }

  /** Round trip: once an entry is written, reading it at any time up to its
      expiry gives the value back, and reading later removes it. The write happens
      only when the entry is within the size limit and fits the quota; a value
      that is not truthy, or an expiry of exactly 0, never reads back. */
  lemma SetThenGet(serializedLength: Doc -> nat, fits: map<string, Doc> -> bool, entries: map<string, Doc>,
                   key: string, value: Value, ttl: int, setAt: int, readAt: int)
    requires serializedLength(ExpiringDoc(value, At(setAt + ttl))) <= MaxSize
    requires fits(entries[key := ExpiringDoc(value, At(setAt + ttl))])
    requires value.Truthy() && setAt + ttl != 0
    ensures readAt <= setAt + ttl ==>
      Read(Lookup(Saved(serializedLength, fits, entries, key, ExpiringDoc(value, At(setAt + ttl))), key), readAt)
        == Reading(Some(value), false)
    ensures readAt > setAt + ttl ==>
      Read(Lookup(Saved(serializedLength, fits, entries, key, ExpiringDoc(value, At(setAt + ttl))), key), readAt)
        == Reading(None, true)
  {
  }

  /** A second read at the same time gives what the first gave: after an eviction
      the key is gone and reads as `null`, which is what the evicting read returned. */
  lemma ReadTwice(entries: map<string, Doc>, key: string, now: int)
    ensures var first := Read(Lookup(entries, key), now);
            var after := if first.evict then entries - {key} else entries;
            Read(Lookup(after, key), now).result == first.result
  {
  }
}
