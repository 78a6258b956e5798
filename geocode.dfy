/**
 * The geocode store: a cache from address to the coordinates the map
 * service's geocoder returned for it, with the time they were stored.
 * Before every lookup the cache is swept of entries older than one day and
 * then trimmed, oldest first, to at most MAX_CACHE_SIZE entries; a hit
 * answers from the cache, a miss asks the geocoder and stores its first match.
 */
module Geocode {

  /** Maximum age of a cached entry: one day, in milliseconds. */
  const TTL_MS: int := 1 * 24 * 60 * 60 * 1000
  /** Number of entries the size-limit pass trims the cache down to. */
  const MAX_CACHE_SIZE: nat := 200

  /** Coordinates as the cache stores them; only copied, never computed on. */
  datatype Coords = Coords(lat: real, lng: real)

  /** One cached lookup: its coordinates and the time (ms) it was stored. */
  datatype Entry = Entry(coords: Coords, timestamp: int)

  /** A candidate match from the geocoder: x is the longitude, y the latitude. */
  datatype Point = Point(x: real, y: real)

  /**
   * What the geocoder hands its callback: whether the status was OK, the
   * candidate matches in order, and the clock reading when the callback runs.
   */
  datatype GeocodeReply = GeocodeReply(statusOk: bool, addresses: seq<Point>, receivedAt: int)

  /** The three ways a lookup is rejected. */
  datatype FetchError =
    | MapNotLoaded     // the map service is not loaded
    | LookupFailed     // the geocoder answered with a non-OK status
    | AddressNotFound  // the geocoder answered OK with no match

  datatype Result<T, E> = Ok(value: T) | Err(error: E)

  datatype Option<T> = None | Some(value: T)

  type Cache = map<string, Entry>

  /**
   * What a lookup resolves with: `Some` coordinates, or `None` for the
   * undefined value a lookup resolves with when the address names a property
   * the cache object inherits instead of an entry.
   */
  type Lookup = Result<Option<Coords>, FetchError>

  /**
   * The properties every plain object inherits from `Object.prototype`.
   * Reading one of them from the cache object gives a truthy value that is
   * not an entry, so the hit test passes for it although no entry exists.
   */
  const INHERITED_NAMES: set<string> := {
    "constructor", "hasOwnProperty", "isPrototypeOf", "propertyIsEnumerable",
    "toString", "toLocaleString", "valueOf", "__proto__",
    "__defineGetter__", "__defineSetter__", "__lookupGetter__", "__lookupSetter__"
  }

  /** The pair `Object.entries` yields for one cache entry. */
  type Item = (string, Entry)

  /** The coordinates stored for a match: y becomes lat, x becomes lng. */
  function CoordsOf(p: Point): Coords
  {
    Coords(lat := p.y, lng := p.x)
  }

  // ---------------------------------------------------------------------
  // Expiry
  // ---------------------------------------------------------------------

  /** An entry is expired once its age is strictly greater than TTL_MS. */
  predicate Expired(e: Entry, now: int)
  {
    now - e.timestamp > TTL_MS
  }

  /** The cache with every entry that is expired at `now` removed. */
  function Unexpired(m: Cache, now: int): Cache
  {
    map k | k in m && !Expired(m[k], now) :: m[k]
  }

  /**
   * The sweep only removes keys, keeps exactly the entries whose age is at
   * most TTL_MS, and leaves their values as they were.
   */
  lemma UnexpiredKeepsExactlyFresh(m: Cache, now: int)
    ensures Unexpired(m, now).Keys <= m.Keys
    ensures forall k :: k in Unexpired(m, now) ==>
      Unexpired(m, now)[k] == m[k] && now - m[k].timestamp <= TTL_MS
    ensures forall k :: k in m && now - m[k].timestamp <= TTL_MS ==> k in Unexpired(m, now)
  {
  }

  /**
   * Sweeping at `earlier` and then at `later` is the same as sweeping once
   * at `later`; with equal times this is idempotence of the sweep.
   */
  lemma UnexpiredAbsorbs(m: Cache, earlier: int, later: int)
    requires earlier <= later
    ensures Unexpired(Unexpired(m, earlier), later) == Unexpired(m, later)
  {
  }

  /** The sweep never grows the cache. */
  lemma UnexpiredShrinks(m: Cache, now: int)
    ensures |Unexpired(m, now)| <= |m|
  {
    SubsetCardinality(Unexpired(m, now).Keys, m.Keys);
  }

  lemma {:induction false} SubsetCardinality<T>(a: set<T>, b: set<T>)
    requires a <= b
    ensures |a| <= |b|
  {
    if a != {} {
      var x :| x in a;
      SubsetCardinality(a - {x}, b - {x});
    }
  }

  // ---------------------------------------------------------------------
  // Entries of the cache and their order by timestamp
  // ---------------------------------------------------------------------

  /** No two items share a key. */
  predicate DistinctKeys(s: seq<Item>)
  {
    forall i, j :: 0 <= i < j < |s| ==> s[i].0 != s[j].0
  }

  /**
   * `s` lists the entries of `m`: one item per key, each with the entry the
   * cache holds for that key, in some order.
   */
  ghost predicate EntriesOf(s: seq<Item>, m: Cache)
  {
    && |s| == |m|
    && DistinctKeys(s)
    && (forall i :: 0 <= i < |s| ==> s[i].0 in m && m[s[i].0] == s[i].1)
    && m.Keys <= KeySet(s)
  }

  /** The keys that occur in a listing. */
  function KeySet(s: seq<Item>): set<string>
  {
    set i | 0 <= i < |s| :: s[i].0
  }

  predicate SortedByTimestamp(s: seq<Item>)
  {
    forall i, j :: 0 <= i < j < |s| ==> s[i].1.timestamp <= s[j].1.timestamp
  }

  /**
   * Lists the entries of `m`, as `Object.entries` does. The enumeration order
   * is left open: any order the choice of keys produces is allowed.
   */
  method ListEntries(m: Cache) returns (items: seq<Item>)
    ensures EntriesOf(items, m)
  {
    items := [];
    var pending := m.Keys;
    while pending != {}
      invariant pending <= m.Keys
      invariant |items| + |pending| == |m|
      invariant DistinctKeys(items)
      invariant forall i :: 0 <= i < |items| ==>
        items[i].0 in m && items[i].0 !in pending && m[items[i].0] == items[i].1
      invariant m.Keys - pending <= KeySet(items)
      decreases pending
    {
      var address :| address in pending;
      ghost var listed := items;
      items := items + [(address, m[address])];
      forall k | k in m && k !in pending - {address}
        ensures k in KeySet(items)
      {
        if k == address {
          assert items[|listed|].0 == k;
        } else {
          assert k in KeySet(listed);
          var i :| 0 <= i < |listed| && listed[i].0 == k;
          assert items[i] == listed[i];
        }
      }
      pending := pending - {address};
    }
  }

  /**
   * Inserts `x` in front of the first item whose timestamp is not smaller,
   * so that it stays ahead of the equal-timestamp items that follow it.
   */
  function InsertByTimestamp(x: Item, s: seq<Item>): (r: seq<Item>)
    ensures multiset(r) == multiset(s) + multiset{x}
    ensures |r| == |s| + 1 && (r[0] == x || (s != [] && r[0] == s[0]))
  {
    if s == [] || x.1.timestamp <= s[0].1.timestamp then
      [x] + s
    else
      assert s == [s[0]] + s[1..];
      [s[0]] + InsertByTimestamp(x, s[1..])
  }

  lemma {:induction false} InsertKeepsSorted(x: Item, s: seq<Item>)
    requires SortedByTimestamp(s)
    ensures SortedByTimestamp(InsertByTimestamp(x, s))
  {
    if s != [] && x.1.timestamp > s[0].1.timestamp {
      var tail := InsertByTimestamp(x, s[1..]);
      assert SortedByTimestamp(s[1..]) by {
        forall i, j | 0 <= i < j < |s[1..]| ensures s[1..][i].1.timestamp <= s[1..][j].1.timestamp {
          assert s[1..][i] == s[i + 1] && s[1..][j] == s[j + 1];
        }
      }
      InsertKeepsSorted(x, s[1..]);
      assert s[0].1.timestamp <= tail[0].1.timestamp;
      var r := [s[0]] + tail;
      forall i, j | 0 <= i < j < |r| ensures r[i].1.timestamp <= r[j].1.timestamp {
        if i > 0 {
          assert r[i] == tail[i - 1] && r[j] == tail[j - 1];
        } else {
          assert r[j] == tail[j - 1];
        }
      }
    }
  }

  /**
   * The sort of the listed entries, whose comparator subtracts the second
   * entry's timestamp from the first's: a sort in ascending order of
   * timestamp, so the oldest entries come first. The order among entries
   * with equal timestamps is not stated, as the listing's order is open.
   */
  function SortByTimestamp(s: seq<Item>): (r: seq<Item>)
    ensures multiset(r) == multiset(s)
    ensures SortedByTimestamp(r)
  {
    if s == [] then
      []
    else
      assert s == [s[0]] + s[1..];
      InsertKeepsSorted(s[0], SortByTimestamp(s[1..]));
      InsertByTimestamp(s[0], SortByTimestamp(s[1..]))
  }

  lemma {:induction false} DistinctKeysCountOnce(s: seq<Item>, e: Item)
    requires DistinctKeys(s)
    ensures multiset(s)[e] <= 1
  {
    if s != [] {
      assert s == [s[0]] + s[1..];
      assert DistinctKeys(s[1..]) by {
        forall i, j | 0 <= i < j < |s[1..]| ensures s[1..][i].0 != s[1..][j].0 {
          assert s[1..][i] == s[i + 1] && s[1..][j] == s[j + 1];
        }
      }
      DistinctKeysCountOnce(s[1..], e);
      if s[0] == e {
        assert e !in s[1..];
      }
    }
  }

  lemma RepeatedItemCountsTwice(s: seq<Item>, i: int, j: int)
    requires 0 <= i < j < |s| && s[i] == s[j]
    ensures multiset(s)[s[i]] >= 2
  {
    assert s == s[..j] + [s[j]] + s[j + 1..];
    assert s[..j][i] == s[i];
  }

  /** Reordering a listing of the entries of `m` gives another listing of them. */
  lemma PermutedEntries(s: seq<Item>, r: seq<Item>, m: Cache)
    requires EntriesOf(s, m)
    requires multiset(r) == multiset(s)
    ensures EntriesOf(r, m)
  {
    assert |r| == |multiset(r)| == |multiset(s)| == |s|;
    forall i | 0 <= i < |r| ensures r[i].0 in m && m[r[i].0] == r[i].1 {
      assert r[i] in multiset(s);
      var p :| 0 <= p < |s| && s[p] == r[i];
    }
    forall k | k in m ensures k in KeySet(r) {
      var p :| 0 <= p < |s| && s[p].0 == k;
      assert s[p] in multiset(r);
      var i :| 0 <= i < |r| && r[i] == s[p];
    }
    forall i, j | 0 <= i < j < |r| ensures r[i].0 != r[j].0 {
      if r[i] == r[j] {
        RepeatedItemCountsTwice(r, i, j);
        DistinctKeysCountOnce(s, r[i]);
      }
    }
  }

  // ---------------------------------------------------------------------
  // Size-limit eviction
  // ---------------------------------------------------------------------

  /**
   * `after` is what the size-limit pass may leave of `before`: a part of it
   * with values unchanged, of size min(|before|, MAX_CACHE_SIZE), all of it
   * when nothing is over the limit, and no entry removed while a strictly
   * older one stays. Which of several equal-timestamp entries goes is open.
   */
  ghost predicate OldestFirstEviction(before: Cache, after: Cache)
  {
    && (forall k :: k in after ==> k in before && after[k] == before[k])
    && |after| == (if |before| <= MAX_CACHE_SIZE then |before| else MAX_CACHE_SIZE)
    && (|before| <= MAX_CACHE_SIZE ==> after == before)
    && (forall gone, kept :: gone in before && gone !in after && kept in after ==>
          before[gone].timestamp <= before[kept].timestamp)
  }

  /** The keys of the entries of `m` stored strictly before time `t`. */
  function OlderThan(m: Cache, t: int): set<string>
  {
    set k | k in m && m[k].timestamp < t
  }

  /**
   * An entry survives the size-limit pass when at least as many entries as
   * are over the limit are strictly older than it.
   */
  lemma EvictionSpares(before: Cache, after: Cache, k: string)
    requires OldestFirstEviction(before, after)
    requires k in before
    requires |before| - MAX_CACHE_SIZE <= |OlderThan(before, before[k].timestamp)|
    ensures k in after && after[k] == before[k]
  {
    if k !in after {
      var removed := before.Keys - after.Keys;
      var older := OlderThan(before, before[k].timestamp);
      assert older + {k} <= removed;
      SubsetCardinality(older + {k}, removed);
    }
  }

  /**
   * Maintenance before a lookup at `now` (the sweep, then the size-limit
   * pass) keeps an entry whose age is within TTL_MS as long as enough of the
   * surviving entries are strictly older; in particular it always does when
   * at most MAX_CACHE_SIZE entries survive the sweep.
   */
  lemma MaintenanceKeepsFreshEntry(m: Cache, now: int, maintained: Cache, k: string)
    requires k in m && now - m[k].timestamp <= TTL_MS
    requires OldestFirstEviction(Unexpired(m, now), maintained)
    requires |Unexpired(m, now)| - MAX_CACHE_SIZE <= |OlderThan(Unexpired(m, now), m[k].timestamp)|
    ensures k in maintained && maintained[k] == m[k]
  {
    UnexpiredKeepsExactlyFresh(m, now);
    EvictionSpares(Unexpired(m, now), maintained, k);
  }

  /**
   * `after` is `before` with the keys of the first `n` items of `sorted`
   * deleted, every other value unchanged.
   */
  ghost predicate EvictedPrefix(before: Cache, sorted: seq<Item>, n: nat, after: Cache)
  {
    && n <= |sorted|
    && |after| == |before| - n
    && (forall k :: k in after ==> k in before && after[k] == before[k])
    && (forall j :: 0 <= j < n ==> sorted[j].0 !in after)
    && (forall j :: n <= j < |sorted| ==> sorted[j].0 in after)
  }

  lemma EvictedNone(before: Cache, sorted: seq<Item>)
    requires EntriesOf(sorted, before)
    ensures EvictedPrefix(before, sorted, 0, before)
  {
  }

  /** Deleting the key of the next item keeps the count and the rest in step. */
  lemma EvictNext(before: Cache, sorted: seq<Item>, n: nat, after: Cache)
    requires DistinctKeys(sorted) && n < |sorted|
    requires EvictedPrefix(before, sorted, n, after)
    ensures EvictedPrefix(before, sorted, n + 1, after - {sorted[n].0})
  {
    var gone := sorted[n].0;
    assert forall j :: n < j < |sorted| ==> sorted[j].0 != gone;
    assert after.Keys == (after - {gone}).Keys + {gone};
  }

  /**
   * Deleting the first |before| - MAX_CACHE_SIZE keys of a listing of
   * `before` sorted oldest first is an oldest-first eviction.
   */
  lemma DroppingOldestEvicts(before: Cache, sorted: seq<Item>, after: Cache)
    requires EntriesOf(sorted, before) && SortedByTimestamp(sorted)
    requires |before| > MAX_CACHE_SIZE
    requires EvictedPrefix(before, sorted, |before| - MAX_CACHE_SIZE, after)
    ensures OldestFirstEviction(before, after)
  {
    forall gone, kept | gone in before && gone !in after && kept in after
      ensures before[gone].timestamp <= before[kept].timestamp
    {
      var g :| 0 <= g < |sorted| && sorted[g].0 == gone;
      var k :| 0 <= k < |sorted| && sorted[k].0 == kept;
      assert g < |before| - MAX_CACHE_SIZE <= k;
    }
  }

  // ---------------------------------------------------------------------
  // The store
  // ---------------------------------------------------------------------

  class GeocodeStore {
    var addressCache: Cache

    constructor ()
      ensures addressCache == map[]
    {
      addressCache := map[];
    }

    /** Deletes, key by key, every entry that is expired at `now`. */
    method CleanExpiredCache(now: int)
      modifies this
      ensures addressCache == Unexpired(old(addressCache), now)
    {
      var pending := addressCache.Keys;
      while pending != {}
        invariant pending <= old(addressCache).Keys
        invariant forall k :: k in addressCache <==>
          k in old(addressCache) && (k in pending || !Expired(old(addressCache)[k], now))
        invariant forall k :: k in addressCache ==> addressCache[k] == old(addressCache)[k]
        decreases pending
      {
        var address :| address in pending;
        if Expired(addressCache[address], now) {
          addressCache := addressCache - {address};
        }
        pending := pending - {address};
      }
    }

    /**
     * When the cache is over MAX_CACHE_SIZE, sorts its entries oldest first
     * and deletes as many of the first ones as the cache is over the limit.
     */
    method EnforceCacheSizeLimit()
      modifies this
      ensures OldestFirstEviction(old(addressCache), addressCache)
    {
      ghost var before := addressCache;
      var entries := ListEntries(addressCache);
      if |entries| <= MAX_CACHE_SIZE {
        return;
      }
      ghost var listed := entries;
      entries := SortByTimestamp(entries);
      PermutedEntries(listed, entries, before);
      var excess := |entries| - MAX_CACHE_SIZE;
      EvictedNone(before, entries);
      for i := 0 to excess
        invariant EvictedPrefix(before, entries, i, addressCache)
      {
        EvictNext(before, entries, i, addressCache);
        addressCache := addressCache - {entries[i].0};
      }
      DroppingOldestEvicts(before, entries, addressCache);
    }

    /**
     * Looks up `address`: sweeps and trims the cache, answers a hit from it,
     * and on a miss asks the geocoder. `mapsLoaded` is whether the map
     * service is available and `reply` is what its geocoder answers. The
     * callback does not stop after rejecting, so a non-OK reply that still
     * carries a match is stored; a reply with no match stores nothing.
     * `maintained` names the cache as it stands after the two passes. The hit
     * test reads the address as a property of the cache object, so a name in
     * INHERITED_NAMES that is not a key of the cache also counts as a hit; it
     * resolves with no coordinates.
     */
    method FetchCoordinates(address: string, now: int, mapsLoaded: bool, reply: GeocodeReply)
      returns (r: Lookup, ghost maintained: Cache)
      modifies this
      ensures OldestFirstEviction(Unexpired(old(addressCache), now), maintained)
      // a hit answers from the cache and changes nothing more
      ensures address in maintained ==>
        r == Ok(Some(maintained[address].coords)) && addressCache == maintained
      // an inherited property passes the hit test but carries no coordinates
      ensures address !in maintained && address in INHERITED_NAMES ==>
        r == Ok(None) && addressCache == maintained
      // a miss without the map service fails before asking the geocoder
      ensures address !in maintained && address !in INHERITED_NAMES && !mapsLoaded ==>
        r == Err(MapNotLoaded) && addressCache == maintained
      // a miss answered with no match is rejected and stores nothing
      ensures address !in maintained && address !in INHERITED_NAMES && mapsLoaded && reply.addresses == [] ==>
        && r == Err(if reply.statusOk then AddressNotFound else LookupFailed)
        && addressCache == maintained
      // a miss answered with a match stores the first one, whatever the status
      ensures address !in maintained && address !in INHERITED_NAMES && mapsLoaded && reply.addresses != [] ==>
        && r == (if reply.statusOk then Ok(Some(CoordsOf(reply.addresses[0]))) else Err(LookupFailed))
        && addressCache == maintained[address := Entry(CoordsOf(reply.addresses[0]), reply.receivedAt)]
      ensures |addressCache| <= MAX_CACHE_SIZE + 1
    {
      CleanExpiredCache(now);
      EnforceCacheSizeLimit();
      maintained := addressCache;

      if address in addressCache {
        return Ok(Some(addressCache[address].coords)), maintained;
      }
      if address in INHERITED_NAMES {
        // The value read is not an entry: its `coords` is undefined.
        return Ok(None), maintained;
      }
      if !mapsLoaded {
        return Err(MapNotLoaded), maintained;
      }

      // The geocoder's callback. The first settlement of the promise wins.
      var settled: Option<Lookup> := None;
      if !reply.statusOk {
        settled := Some(Err(LookupFailed));
      }
      if reply.addresses == [] {
        if settled == None {
          settled := Some(Err(AddressNotFound));
        }
        // `result.y` throws here: the cache is left alone.
        return settled.value, maintained;
      }
      var coords := CoordsOf(reply.addresses[0]);
      addressCache := addressCache[address := Entry(coords, reply.receivedAt)];
      if settled == None {
        settled := Some(Ok(Some(coords)));
      }
      r := settled.value;
    }
  }

  // ---------------------------------------------------------------------
  // Callers' view
  // ---------------------------------------------------------------------

  /**
   * A miss that the geocoder answers with a match, followed by a second
   * lookup of the same address within TTL_MS of the answer: the second one
   * is a hit with the same coordinates, whatever the geocoder would say and
   * however full the cache is, as long as every entry already cached was
   * stored before the answer arrived. The address may have been cached
   * before; the first lookup is a miss whenever its entry has expired or is
   * evicted by the two passes (`m1` is the cache after them, an oldest-first
   * eviction of the swept cache).
   */
  method RepeatLookupHits(store: GeocodeStore, address: string, t1: int, reply: GeocodeReply,
                          t2: int, mapsLoaded2: bool, reply2: GeocodeReply)
    returns (r1: Lookup, r2: Lookup, ghost m1: Cache)
    requires address !in INHERITED_NAMES
    requires forall k :: k in store.addressCache ==> store.addressCache[k].timestamp < reply.receivedAt
    requires reply.statusOk && reply.addresses != []
    requires t2 - reply.receivedAt <= TTL_MS
    modifies store
    ensures OldestFirstEviction(Unexpired(old(store.addressCache), t1), m1)
    ensures address !in m1 ==> r1 == Ok(Some(CoordsOf(reply.addresses[0]))) && r2 == r1
    ensures address !in Unexpired(old(store.addressCache), t1) ==>
      r1 == Ok(Some(CoordsOf(reply.addresses[0]))) && r2 == r1
  {
    ghost var m2;
    r1, m1 := store.FetchCoordinates(address, t1, true, reply);
    ghost var c1 := store.addressCache;
    if address !in m1 {
      UnexpiredShrinks(c1, t2);
      ghost var u := Unexpired(c1, t2);
      assert address in u;
      assert u.Keys - {address} <= OlderThan(u, reply.receivedAt);
      SubsetCardinality(u.Keys - {address}, OlderThan(u, reply.receivedAt));
    }
    r2, m2 := store.FetchCoordinates(address, t2, mapsLoaded2, reply2);
    if address !in m1 {
      MaintenanceKeepsFreshEntry(c1, t2, m2, address);
    }
  }

  /**
   * The same two lookups on a cache below MAX_CACHE_SIZE entries, with no
   * assumption on the order of the clock readings. The address may have an
   * entry, as long as that entry has expired at the first lookup.
   */
  method RepeatLookupHitsSmallCache(store: GeocodeStore, address: string, t1: int, reply: GeocodeReply,
                                    t2: int, mapsLoaded2: bool, reply2: GeocodeReply)
    returns (r1: Lookup, r2: Lookup)
    requires |store.addressCache| < MAX_CACHE_SIZE
    requires address !in Unexpired(store.addressCache, t1) && address !in INHERITED_NAMES
    requires reply.statusOk && reply.addresses != []
    requires t2 - reply.receivedAt <= TTL_MS
    modifies store
    ensures r1 == Ok(Some(CoordsOf(reply.addresses[0])))
    ensures r2 == r1
  {
    ghost var m1, m2;
    UnexpiredShrinks(store.addressCache, t1);
    r1, m1 := store.FetchCoordinates(address, t1, true, reply);
    ghost var c1 := store.addressCache;
    UnexpiredShrinks(c1, t2);
    r2, m2 := store.FetchCoordinates(address, t2, mapsLoaded2, reply2);
    MaintenanceKeepsFreshEntry(c1, t2, m2, address);
  }

  /**
   * The size limit is enforced before the insertion: a miss on a cache that
   * still holds MAX_CACHE_SIZE live entries leaves MAX_CACHE_SIZE + 1.
   */
  method MissOnFullCache(store: GeocodeStore, address: string, now: int, reply: GeocodeReply)
    returns (r: Lookup)
    requires |Unexpired(store.addressCache, now)| == MAX_CACHE_SIZE
    requires address !in store.addressCache && address !in INHERITED_NAMES
    requires reply.statusOk && reply.addresses != []
    modifies store
    ensures r.Ok?
    ensures |store.addressCache| == MAX_CACHE_SIZE + 1
  {
    ghost var maintained;
    r, maintained := store.FetchCoordinates(address, now, true, reply);
  }

  /** "Seoul City Hall" on an empty cache, answered with one match. */
  method SeoulCityHall(now: int) returns (r: Lookup, cache: Cache)
    ensures r == Ok(Some(Coords(lat := 37.566, lng := 126.978)))
    ensures cache == map["Seoul City Hall" := Entry(Coords(37.566, 126.978), now)]
  {
    var store := new GeocodeStore();
    ghost var maintained;
    r, maintained := store.FetchCoordinates("Seoul City Hall", now, true,
      GeocodeReply(true, [Point(x := 126.978, y := 37.566)], now));
    cache := store.addressCache;
  }

  /**
   * A non-OK reply that still carries a match: the caller sees LookupFailed,
   * yet the match is stored, and a second lookup at the same time answers
   * it from the cache, whatever the geocoder would say then.
   */
  method FailedLookupStillStores(now: int, reply2: GeocodeReply) returns (r: Lookup, cache: Cache, r2: Lookup)
    ensures r == Err(LookupFailed)
    ensures cache == map["Seoul City Hall" := Entry(Coords(37.566, 126.978), now)]
    ensures r2 == Ok(Some(Coords(lat := 37.566, lng := 126.978)))
  {
    var store := new GeocodeStore();
    ghost var maintained;
    r, maintained := store.FetchCoordinates("Seoul City Hall", now, true,
      GeocodeReply(false, [Point(x := 126.978, y := 37.566)], now));
    cache := store.addressCache;
    r2, maintained := store.FetchCoordinates("Seoul City Hall", now, true, reply2);
  }

  /**
   * "constructor" on an empty cache: the hit test finds the inherited
   * property, so the lookup resolves with no coordinates, asks no geocoder
   * and stores nothing, whatever the geocoder would have answered.
   */
  method InheritedNameHits(now: int, reply: GeocodeReply) returns (r: Lookup, cache: Cache)
    ensures r == Ok(None)
    ensures cache == map[]
  {
    var store := new GeocodeStore();
    ghost var maintained;
    r, maintained := store.FetchCoordinates("constructor", now, true, reply);
    cache := store.addressCache;
  }
}
