# Geocode store: a verified model of the address-coordinate cache

This project models the geocode store of a Vue map client (`src/stores/geocode.js`).
The store caches the geocoder's answers in `addressCache`, a map from an address
string to `{coords: {lat, lng}, timestamp}`. Two constants govern it:

- `TTL_MS`: one day, 86,400,000 ms;
- `MAX_CACHE_SIZE`: 200.

Every call to `fetchCoordinates(address)` first runs two maintenance passes:

- `cleanExpiredCache` deletes every entry whose age is greater than `TTL_MS`;
- `enforceCacheSizeLimit` sorts the entries by timestamp and deletes the oldest ones until 200 remain.

After that, a hit answers from the cache. The hit test reads the address as a
property of the cache object, so a name the object inherits from
`Object.prototype` (such as "constructor") also passes it and resolves with
`undefined`; the model lists these names in `INHERITED_NAMES` and answers them
with `Ok(None)`. A miss checks that the map service is
loaded, asks the Naver geocoder, and stores the first match under the address.

The Dafny module `Geocode` (in `geocode.dfy`) has the following parts:

- the class `GeocodeStore`, whose field `addressCache: map<string, Entry>` its three methods update in place;
- the specification functions and predicates those methods are proved against: `Unexpired`, `OldestFirstEviction`, `EntriesOf`, `SortedByTimestamp`;
- `ListEntries` and `SortByTimestamp`, the listing and the sort that `EnforceCacheSizeLimit` runs;
- lemmas about those specifications;
- client methods that show, from the contracts alone, what a caller can rely on.

Time is passed in as integers. `now` is the clock read by the sweep. The clock
read inside the geocoder's callback, which becomes the new entry's timestamp, is
`reply.receivedAt`. The geocoder becomes the value `GeocodeReply(statusOk,
addresses, receivedAt)`. Whether the map service is loaded becomes the boolean
`mapsLoaded`.

## Where the code and the intended behaviour differ

The model follows the code in each of these cases:

- **Expiry is one day.** The comment at `geocode.js:10` says seven days. The code uses `TTL_MS`, which is one day.
- **The cache can hold 201 entries after a call.** The size limit is enforced at line 47, before the insertion at line 88. A miss on a cache that still has 200 live entries therefore leaves 201. `FetchCoordinates` guarantees at most `MAX_CACHE_SIZE + 1`, and `MissOnFullCache` shows that 201 is reached. So "at most 200 entries after every call" does not hold: a successful 201st lookup on a full cache ends with 201 entries, not 200.
- **A rejected lookup can still write the cache.** There is no `return` after either `reject` (lines 70 and 76). Suppose the status is not OK but the reply still carries a match. The promise is rejected with the lookup-failed error, and the callback then goes on to store the match. `FailedLookupStillStores` shows this case. When there is no match, `result.y` throws before line 88, so nothing is stored. "A rejected lookup leaves the cache unchanged" is therefore true of the code only when the reply has no match.

## Model

| member | source | states |
|---|---|---|
| `Geocode.GeocodeStore.constructor` | src/stores/geocode.js:8 | the store starts with an empty cache |
| `Geocode.GeocodeStore.CleanExpiredCache` | src/stores/geocode.js:11-18 | deleting key by key leaves exactly `Unexpired(old cache, now)` |
| `Geocode.UnexpiredKeepsExactlyFresh` | src/stores/geocode.js:13-16 | the sweep only removes keys; every survivor has age at most `TTL_MS` and its old value; every entry with age at most `TTL_MS` survives |
| `Geocode.UnexpiredAbsorbs` | src/stores/geocode.js:11-18 | a sweep at `earlier` followed by one at a later-or-equal time equals the later sweep alone, so sweeping twice at the same time is the same as sweeping once |
| `Geocode.UnexpiredShrinks` | src/stores/geocode.js:11-18 | the sweep never increases the number of entries |
| `Geocode.ListEntries` | src/stores/geocode.js:22 | `Object.entries` lists every cache entry exactly once, with its stored value, in some enumeration order |
| `Geocode.InsertByTimestamp` | src/stores/geocode.js:30 | one insertion step of the sort adds exactly the new item and puts it first or keeps the old head |
| `Geocode.InsertKeepsSorted` | src/stores/geocode.js:30 | inserting into a list that is sorted by timestamp keeps it sorted |
| `Geocode.SortByTimestamp` | src/stores/geocode.js:30 | sorting with the timestamp comparator gives a permutation of the entries in ascending timestamp order |
| `Geocode.PermutedEntries` | src/stores/geocode.js:22-30 | the sorted list is still a listing of the cache: one item per key, values unchanged |
| `Geocode.EvictNext` | src/stores/geocode.js:34-35 | one deletion of the loop removes one more key of the sorted listing, shrinks the cache by exactly one and leaves every later key and every value in place |
| `Geocode.DroppingOldestEvicts` | src/stores/geocode.js:33-35 | deleting the first `count - 200` keys of the sorted listing is an oldest-first eviction down to 200 entries |
| `Geocode.GeocodeStore.EnforceCacheSizeLimit` | src/stores/geocode.js:21-37 | the map is unchanged at 200 or fewer entries; otherwise exactly 200 entries remain; survivors keep their old values; no removed entry is newer than a kept one |
| `Geocode.EvictionSpares` | src/stores/geocode.js:30-36 | an entry survives the size limit when at least `count - 200` entries are strictly older than it |
| `Geocode.MaintenanceKeepsFreshEntry` | src/stores/geocode.js:46-47 | an entry whose age is within `TTL_MS` survives both passes, with its value, when enough surviving entries are strictly older (always, if at most 200 survive the sweep) |
| `Geocode.GeocodeStore.FetchCoordinates` | src/stores/geocode.js:45-97 | after the two passes: a hit returns the stored coords and changes nothing more; an address that is not a key but names an inherited `Object.prototype` property resolves with no coordinates and changes nothing more; a miss without the map service fails with `MapNotLoaded` and changes nothing more; a reply with no match fails (`AddressNotFound` if OK, else `LookupFailed`) and stores nothing; a reply with a match stores `{lat: y, lng: x}` of the first match at the callback's time and leaves every other key alone; the cache ends with at most 201 entries |
| `Geocode.RepeatLookupHits` | src/stores/geocode.js:46-55 | at any cache size, when every cached entry was stored before the geocoder's answer: the cache after the first call's two passes is an oldest-first eviction of the swept old cache; a successful miss (any address with no live entry at the first lookup, and also one whose entry the size limit evicts) followed by a second lookup within `TTL_MS` of the answer returns the same coords, whatever the geocoder would answer |
| `Geocode.RepeatLookupHitsSmallCache` | src/stores/geocode.js:46-55 | on a cache below 200 entries, with no assumption on the clock, a successful miss (the address has no entry that is live at the first lookup) followed by a second lookup within `TTL_MS` of the answer returns the same coords |
| `Geocode.InheritedNameHits` | src/stores/geocode.js:52-54 | "constructor" on an empty cache passes the hit test through the inherited property, resolves with no coordinates, and stores nothing whatever the geocoder would answer |
| `Geocode.MissOnFullCache` | src/stores/geocode.js:47-91 | a successful miss on a cache with exactly 200 live entries leaves 201 entries |
| `Geocode.SeoulCityHall` | src/stores/geocode.js:74-93 | "Seoul City Hall" answered with x = 126.978, y = 37.566 on an empty cache returns lat 37.566, lng 126.978, and the cache holds exactly that one entry |
| `Geocode.FailedLookupStillStores` | src/stores/geocode.js:46-91 | a non-OK reply that carries a match is rejected with `LookupFailed`, but the match is stored anyway, and a second lookup at the same time returns it from the cache |

## Left out

- `isNaverMapsLoaded` (geocode.js:40-42) is a probe of the runtime environment. It becomes the boolean parameter `mapsLoaded`, and every not-loaded case becomes `MapNotLoaded`. When `naver` is not declared at all, `naver.maps` at line 41 throws a `ReferenceError`, and the caller gets that error instead of the "not loaded" error of line 60; the model does not distinguish the two.
- The Naver SDK call `naver.maps.Service.geocode` and the shape of its response (geocode.js:65-95) become `GeocodeReply`. `GeocodeReply` cannot express a response without `v2.addresses`: with an OK status the source then throws at line 74 before any `reject`, so the promise never settles, whereas the model's reply with an empty list settles with `AddressNotFound`. A callback that never runs, which leaves the promise pending forever, is not modelled.
- The `TypeError` that `result.y` throws inside the callback when there is no match is modelled only by its effect: nothing is stored. The exception itself escapes to the SDK, not to the caller.
- Promises and `async`, and overlapping calls that interleave at the callback, are not modelled. The model is sequential.
- The Pinia store, the Vue `ref` wrapper and `persist: true` persistence to localStorage (geocode.js:1-2, 7-8, 99-104) are framework and I/O code. A cache rehydrated with malformed timestamps is not modelled either: timestamps are integers.
- `console.log` (geocode.js:53, 57) is left out.
- `Date.now()` becomes the parameters `now` and `reply.receivedAt`.
- Latitude and longitude are `real` values that are only copied. Floating-point behaviour is not modelled.
- JavaScript's property enumeration order is left open. `ListEntries` may list the entries in any order, so the model does not fix which of several equal-timestamp entries is evicted.
- `SortByTimestamp`: the engine's in-place `Array.prototype.sort` on the local `entries` array is modelled on values, as an insertion sort of a sequence. In-place update of that temporary array is not captured. Its contract states a sorted permutation and not stability, which the engine's sort guarantees; with the listing order left open, stability would not fix which equal-timestamp entry is evicted.
- FetchCoordinates: the hit test models the own keys of the cache and the properties inherited from `Object.prototype` (`INHERITED_NAMES`). The extra keys Vue's reactive proxy answers itself (`__v_isReactive`, `__v_raw` and the like) are not modelled. In the source some of them also pass the hit test and resolve with `undefined` or with an unrelated value.
