/** The bounded in-memory TTL cache (`SimpleMemoryCache`) and the hit/miss logic of
    the `cached` decorator. The `OrderedDict` is the sequence `entries` in insertion
    order, oldest first; each entry holds the key, the value and its expiry time.
    The event-loop clock is the integer `now` passed to every operation. */
module MemoryCache {
  import opened Outcomes

  datatype Entry<V> = Entry(key: string, value: V, expireAt: int)

  /** The module-level instance: `SimpleMemoryCache(max_size=1000, default_ttl=300)`. */
  const DefaultMaxSize := 1000
  const DefaultTtl := 300

  predicate DistinctKeys<V>(s: seq<Entry<V>>) {
    forall i, j :: 0 <= i < j < |s| ==> s[i].key != s[j].key
  }

  predicate HasKey<V>(s: seq<Entry<V>>, key: string) {
    exists i :: 0 <= i < |s| && s[i].key == key
  }

  /** Where `key` sits in the order, if it is present. */
  function IndexOfKey<V>(s: seq<Entry<V>>, key: string): (r: Option<nat>)
    ensures r.Some? ==> r.value < |s| && s[r.value].key == key
    ensures r.None? <==> !HasKey(s, key)
  {
    if s == [] then None
    else if s[0].key == key then Some(0)
    else match IndexOfKey(s[1..], key)
      case None => None
      case Some(k) => Some(k + 1)
  }

  function RemoveAt<V>(s: seq<Entry<V>>, i: nat): seq<Entry<V>>
    requires i < |s|
  {
    s[..i] + s[i + 1..]
  }

  /** `now + (ttl or default_ttl)`: a missing or zero ttl falls back to the default. */
  function ExpiryFor(now: int, ttl: Option<int>, defaultTtl: int): int {
    now + (if ttl.None? || ttl.value == 0 then defaultTtl else ttl.value)
  }

  /** `set`: on a full cache `popitem(last=False)` drops the oldest entry first (and raises
      `KeyError`, here `None`, when the cache is empty); then the key is assigned, which
      keeps the position of a present key and appends a fresh one. */
  function SetEntries<V>(s: seq<Entry<V>>, maxSize: int, key: string, value: V, expireAt: int)
    : Option<seq<Entry<V>>>
  {
    if |s| >= maxSize && s == [] then None
    else
      var kept := if |s| >= maxSize then s[1..] else s;
      var e := Entry(key, value, expireAt);
      match IndexOfKey(kept, key)
      case Some(i) => Some(kept[i := e])
      case None => Some(kept + [e])
  }

  /** What `get` returns. */
  function GetValue<V>(s: seq<Entry<V>>, key: string, default: V, now: int): V {
    match IndexOfKey(s, key)
    case None => default
    case Some(i) => if now > s[i].expireAt then default else s[i].value
  }

  /** What `get` leaves behind: an expired entry is deleted, a hit moves to the end. */
  function GetEntries<V>(s: seq<Entry<V>>, key: string, now: int): seq<Entry<V>> {
    match IndexOfKey(s, key)
    case None => s
    case Some(i) => if now > s[i].expireAt then RemoveAt(s, i) else RemoveAt(s, i) + [s[i]]
  }

  function DeleteEntries<V>(s: seq<Entry<V>>, key: string): seq<Entry<V>> {
    match IndexOfKey(s, key)
    case None => s
    case Some(i) => RemoveAt(s, i)
  }

  lemma RemoveAtKeepsDistinct<V>(s: seq<Entry<V>>, i: nat)
    requires DistinctKeys(s) && i < |s|
    ensures DistinctKeys(RemoveAt(s, i))
    ensures !HasKey(RemoveAt(s, i), s[i].key)
    ensures |RemoveAt(s, i)| == |s| - 1
  {
    var r := RemoveAt(s, i);
    assert forall k :: 0 <= k < |r| ==> r[k] == (if k < i then s[k] else s[k + 1]);
  }

  /** With `max_size >= 1` a `set` never fails, keeps keys distinct, never lets the
      cache grow beyond `max_size`, and leaves the key holding the new value and expiry. */
  lemma SetKeepsBound<V>(s: seq<Entry<V>>, maxSize: int, key: string, value: V, expireAt: int)
    requires DistinctKeys(s)
    requires maxSize >= 1 ==> |s| <= maxSize
    requires maxSize >= 1 || s == []
    ensures maxSize >= 1 ==> SetEntries(s, maxSize, key, value, expireAt).Some?
    ensures maxSize < 1 ==> SetEntries(s, maxSize, key, value, expireAt).None?
    ensures SetEntries(s, maxSize, key, value, expireAt).Some? ==>
      var r := SetEntries(s, maxSize, key, value, expireAt).value;
      DistinctKeys(r) && |r| <= maxSize && Entry(key, value, expireAt) in r
  {
    if maxSize >= 1 {
      var kept := if |s| >= maxSize then s[1..] else s;
      assert DistinctKeys(kept);
      var e := Entry(key, value, expireAt);
      match IndexOfKey(kept, key)
      case Some(i) =>
        var r := kept[i := e];
        assert forall k :: 0 <= k < |r| && k != i ==> r[k] == kept[k];
        assert r[i].key == key;
      case None =>
        var r := kept + [e];
        assert r[|kept|] == e;
    }
  }

  /** A `get` before the new expiry returns the value just set, whether or not the `set`
      evicted an entry. */
  lemma SetThenGet<V>(s: seq<Entry<V>>, maxSize: int, key: string, value: V, expireAt: int,
                      default: V, now: int)
    requires DistinctKeys(s) && 1 <= maxSize && |s| <= maxSize
    requires now <= expireAt
    ensures SetEntries(s, maxSize, key, value, expireAt).Some?
    ensures GetValue(SetEntries(s, maxSize, key, value, expireAt).value, key, default, now) == value
  {
    SetKeepsBound(s, maxSize, key, value, expireAt);
    var r := SetEntries(s, maxSize, key, value, expireAt).value;
    var i :| 0 <= i < |r| && r[i] == Entry(key, value, expireAt);
    GetHitIff(r, key, default, now);
  }

  /** On a full cache, `set` drops the oldest entry even when the key being set is already
      present further along: overwriting a key then shrinks the cache by one. */
  lemma {:induction false} SetOnFullCacheEvictsOldest<V>(
    s: seq<Entry<V>>, maxSize: int, key: string, value: V, expireAt: int)
    requires DistinctKeys(s) && 1 <= maxSize <= |s|
    requires HasKey(s[1..], key)
    ensures SetEntries(s, maxSize, key, value, expireAt).Some?
    ensures var r := SetEntries(s, maxSize, key, value, expireAt).value;
      |r| == |s| - 1 && !HasKey(r, s[0].key)
  {
    var kept := s[1..];
    var i := IndexOfKey(kept, key).value;
    var r := kept[i := Entry(key, value, expireAt)];
    assert s[0].key != key by {
      var j :| 0 <= j < |kept| && kept[j].key == key;
      assert kept[j] == s[j + 1];
    }
    forall k | 0 <= k < |r| ensures r[k].key != s[0].key {
      if k != i {
        assert r[k] == s[k + 1];
      }
    }
  }

  /** When no eviction happens, overwriting a key keeps its place and every other entry;
      a fresh key goes to the end. */
  lemma SetPlacement<V>(s: seq<Entry<V>>, maxSize: int, key: string, value: V, expireAt: int)
    requires |s| < maxSize
    ensures SetEntries(s, maxSize, key, value, expireAt).Some?
    ensures var r := SetEntries(s, maxSize, key, value, expireAt).value;
      var e := Entry(key, value, expireAt);
      (forall i :: 0 <= i < |s| && s[i].key == key && DistinctKeys(s) ==> r == s[i := e]) &&
      (!HasKey(s, key) ==> r == s + [e])
  {
    forall i | 0 <= i < |s| && s[i].key == key && DistinctKeys(s)
      ensures SetEntries(s, maxSize, key, value, expireAt).value == s[i := Entry(key, value, expireAt)]
    {
      var k := IndexOfKey(s, key).value;
      assert k == i;
    }
  }

  /** `get` returns the stored value exactly when the key is present and has not expired
      (`now <= expire_at`); otherwise the default. */
  lemma GetHitIff<V>(s: seq<Entry<V>>, key: string, default: V, now: int)
    requires DistinctKeys(s)
    ensures forall i :: 0 <= i < |s| && s[i].key == key ==>
      (now <= s[i].expireAt ==> GetValue(s, key, default, now) == s[i].value) &&
      (now > s[i].expireAt ==>
        GetValue(s, key, default, now) == default && GetEntries(s, key, now) == RemoveAt(s, i))
    ensures !HasKey(s, key) ==>
      GetValue(s, key, default, now) == default && GetEntries(s, key, now) == s
  {
    forall i | 0 <= i < |s| && s[i].key == key
      ensures IndexOfKey(s, key) == Some(i)
    {
      var k := IndexOfKey(s, key).value;
      assert k == i;
    }
  }

  /** A hit moves the key to the end and keeps the relative order of all other entries. */
  lemma GetHitMovesToEnd<V>(s: seq<Entry<V>>, key: string, i: nat, now: int)
    requires DistinctKeys(s) && i < |s| && s[i].key == key && now <= s[i].expireAt
    ensures var r := GetEntries(s, key, now);
      |r| == |s| && r[|r| - 1] == s[i] && r[..|r| - 1] == s[..i] + s[i + 1..]
  {
    var k := IndexOfKey(s, key).value;
    assert k == i;
    var r := RemoveAt(s, i) + [s[i]];
    assert r[..|r| - 1] == RemoveAt(s, i);
  }

  /** `get` keeps the keys distinct and never makes the cache larger. */
  lemma GetKeepsInvariant<V>(s: seq<Entry<V>>, key: string, now: int)
    requires DistinctKeys(s)
    ensures DistinctKeys(GetEntries(s, key, now)) && |GetEntries(s, key, now)| <= |s|
  {
    match IndexOfKey(s, key)
    case None =>
    case Some(i) =>
      RemoveAtKeepsDistinct(s, i);
      var t := RemoveAt(s, i);
      var r := t + [s[i]];
      forall a, b | 0 <= a < b < |r| ensures r[a].key != r[b].key {
        if b == |t| {
          assert r[a] == t[a];
        } else {
          assert r[a] == t[a] && r[b] == t[b];
        }
      }
  }

  /** `delete` answers true exactly when the key was present; afterwards the key is absent
      and the other entries keep their order. */
  lemma DeleteSpec<V>(s: seq<Entry<V>>, key: string)
    requires DistinctKeys(s)
    ensures !HasKey(DeleteEntries(s, key), key)
    ensures DistinctKeys(DeleteEntries(s, key))
    ensures !HasKey(s, key) ==> DeleteEntries(s, key) == s
    ensures forall i :: 0 <= i < |s| && s[i].key == key ==> DeleteEntries(s, key) == s[..i] + s[i + 1..]
  {
    match IndexOfKey(s, key)
    case None =>
    case Some(i) =>
      RemoveAtKeepsDistinct(s, i);
      forall j | 0 <= j < |s| && s[j].key == key ensures j == i { }
  }

  class SimpleMemoryCache<V> {
    var entries: seq<Entry<V>>
    const maxSize: int
    const defaultTtl: int

    /** Keys are distinct (an `OrderedDict`) and, with `max_size >= 1`, there are never more
        than `max_size` entries; with `max_size < 1` no `set` can ever succeed. */
    ghost predicate Valid()
      reads this
    {
      DistinctKeys(entries) &&
      (maxSize >= 1 ==> |entries| <= maxSize) &&
      (maxSize < 1 ==> entries == [])
    }

    constructor (maxSize: int, defaultTtl: int)
      ensures Valid()
      ensures entries == [] && this.maxSize == maxSize && this.defaultTtl == defaultTtl
    {
      this.maxSize := maxSize;
      this.defaultTtl := defaultTtl;
      entries := [];
    }

    /** Returns false where the source raises `KeyError` (an empty cache with `max_size < 1`). */
    method Set(key: string, value: V, ttl: Option<int>, now: int) returns (ok: bool)
      requires Valid()
      modifies this
      ensures Valid()
      ensures ok <==> maxSize >= 1
      ensures var expected := SetEntries(old(entries), maxSize, key, value, ExpiryFor(now, ttl, defaultTtl));
        if ok then expected.Some? && entries == expected.value else entries == old(entries)
    {
      SetKeepsBound(entries, maxSize, key, value, ExpiryFor(now, ttl, defaultTtl));
      if |entries| >= maxSize {
        if entries == [] {
          return false;
        }
        entries := entries[1..];
      }
      var expireAt := now + (if ttl.None? || ttl.value == 0 then defaultTtl else ttl.value);
      var e := Entry(key, value, expireAt);
      match IndexOfKey(entries, key) {
        case Some(i) => entries := entries[i := e];
        case None => entries := entries + [e];
      }
      ok := true;
    }

    method Get(key: string, default: V, now: int) returns (r: V)
      requires Valid()
      modifies this
      ensures Valid()
      ensures r == GetValue(old(entries), key, default, now)
      ensures entries == GetEntries(old(entries), key, now)
    {
      GetKeepsInvariant(entries, key, now);
      match IndexOfKey(entries, key) {
        case None =>
          return default;
        case Some(i) =>
          var entry := entries[i];
          if now > entry.expireAt {
            entries := RemoveAt(entries, i);
            return default;
          }
          entries := RemoveAt(entries, i) + [entry];
          return entry.value;
      }
    }

    method Delete(key: string) returns (found: bool)
      requires Valid()
      modifies this
      ensures Valid()
      ensures found <==> HasKey(old(entries), key)
      ensures entries == DeleteEntries(old(entries), key)
    {
      DeleteSpec(entries, key);
      match IndexOfKey(entries, key) {
        case None =>
          found := false;
        case Some(i) =>
          entries := RemoveAt(entries, i);
          found := true;
      }
    }

    method Clear()
      requires Valid()
      modifies this
      ensures Valid() && entries == []
    {
      entries := [];
    }

    /** `close` only logs and clears. */
    method Close()
      requires Valid()
      modifies this
      ensures Valid() && entries == []
    {
      entries := [];
    }
  }

  /** The `cached` wrapper around one call. The cache holds the function's results, with
      Python's `None` as `None`; `computed` is what the wrapped function returns if it is
      called. A cached `None` is indistinguishable from a miss, so the function is called
      again. The wrapper only ever uses the module-level instance, whose `max_size` is 1000.
      The lookup reads the clock at `now`; the store reads it again at `later`, after the
      wrapped call has been awaited. */
  method Cached<T>(cache: SimpleMemoryCache<Option<T>>, key: string, ttl: int, now: int, later: int,
                   computed: Option<T>)
    returns (r: Option<T>, invoked: bool)
    requires cache.Valid() && cache.maxSize >= 1
    modifies cache
    ensures cache.Valid()
    ensures var looked := GetValue(old(cache.entries), key, None, now);
      invoked == looked.None? && r == (if invoked then computed else looked)
    ensures var afterGet := GetEntries(old(cache.entries), key, now);
      cache.entries == if invoked
        then SetEntries(afterGet, cache.maxSize, key, computed, ExpiryFor(later, Some(ttl), cache.defaultTtl)).value
        else afterGet
  {
    var cachedResult := cache.Get(key, None, now);
    if cachedResult.Some? {
      return cachedResult, false;
    }
    var _ := cache.Set(key, computed, Some(ttl), later);
    return computed, true;
  }

  /** A function that returns `None` is called again on every use: after its `None` is
      stored, the next lookup still reports a miss. */
  lemma CachedNoneIsMiss<T>(s: seq<Entry<Option<T>>>, maxSize: int, key: string, expireAt: int, now: int)
    requires DistinctKeys(s) && 1 <= maxSize && |s| <= maxSize
    ensures SetEntries(s, maxSize, key, None, expireAt).Some?
    ensures GetValue(SetEntries(s, maxSize, key, None, expireAt).value, key, None, now) == None
  {
    SetKeepsBound(s, maxSize, key, None, expireAt);
  }
}
