/** `SoftCacheManager` of `proco/utils/cache.py`: values cached without a hard
    expiry, each record carrying a soft expiry time and an `invalidated`
    flag. A read always answers from the cache when the record is there, and
    schedules a recompute in the background when the record is stale. */
module SoftCache {
  import opened Wrappers

  const CachePrefix: string := "SOFT_CACHE"

  /** The key a soft-cached value is stored under. */
  function CacheKey(key: string): string {
    CachePrefix + "_" + key
  }

  /** The record stored for a key. */
  datatype Entry<V> = Entry(value: V, expiredAt: Option<real>, invalidated: bool)

  /** The argument of `invalidate`: a key pattern, a list or tuple of them,
      or anything else (which is ignored). */
  datatype KeyArg = Pattern(pattern: string) | Many(patterns: seq<string>) | Other

  /** `now + soft_timeout if soft_timeout else None`: a missing or zero
      timeout means the record never expires. */
  function ExpiresAt(now: real, softTimeout: Option<real>): Option<real> {
    if softTimeout.Some? && softTimeout.value != 0.0 then Some(now + softTimeout.value) else None
  }

  /** A record past its expiry time, or invalidated; an expiry time of zero
      is falsy and never passes. */
  predicate Stale<V>(e: Entry<V>, now: real) {
    (e.expiredAt.Some? && e.expiredAt.value != 0.0 && e.expiredAt.value < now) || e.invalidated
  }

  /** The store after `set(key, value, soft_timeout)`. */
  function StoredAt<V>(store: map<string, Entry<V>>, key: string, value: V, softTimeout: Option<real>, now: real)
    : map<string, Entry<V>>
  {
    store[CacheKey(key) := Entry(value, ExpiresAt(now, softTimeout), false)]
  }

  // ---------------------------------------------------------- key patterns

  /** Glob matching as `cache.keys` applies it, with `*` standing for any
      run of characters and every other character for itself. */
  function Matches(pattern: string, s: string): bool
    decreases |pattern| + |s|
  {
    if pattern == [] then s == []
    else if pattern[0] == '*' then Matches(pattern[1..], s) || (s != [] && Matches(pattern, s[1..]))
    else s != [] && pattern[0] == s[0] && Matches(pattern[1..], s[1..])
  }

  /** `*` matches any key. */
  lemma {:induction false} StarMatchesAll(s: string)
    ensures Matches("*", s)
    decreases |s|
  {
    if s != [] {
      StarMatchesAll(s[1..]);
    }
  }

  /** A common prefix without `*` can be matched off both sides. */
  lemma {:induction false} MatchesAfterPrefix(prefix: string, pattern: string, s: string)
    requires forall i :: 0 <= i < |prefix| ==> prefix[i] != '*'
    ensures Matches(prefix + pattern, prefix + s) == Matches(pattern, s)
  {
    if prefix != [] {
      assert (prefix + pattern)[1..] == prefix[1..] + pattern;
      assert (prefix + s)[1..] == prefix[1..] + s;
      MatchesAfterPrefix(prefix[1..], pattern, s);
    } else {
      assert prefix + pattern == pattern && prefix + s == s;
    }
  }

  /** A pattern without `*` matches exactly itself. */
  lemma {:induction false} LiteralMatchesItself(pattern: string, s: string)
    requires forall i :: 0 <= i < |pattern| ==> pattern[i] != '*'
    ensures Matches(pattern, s) <==> s == pattern
    decreases |pattern| + |s|
  {
    if pattern != [] && s != [] {
      LiteralMatchesItself(pattern[1..], s[1..]);
      if pattern[0] == s[0] {
        assert s == [s[0]] + s[1..] && pattern == [pattern[0]] + pattern[1..];
      }
    }
  }

  /** `invalidate()` with its default pattern reaches every soft-cached key. */
  lemma DefaultPatternReachesAll(key: string)
    ensures Matches(CacheKey("*"), CacheKey(key))
  {
    StarMatchesAll(key);
    MatchesAfterPrefix(CachePrefix + "_", "*", key);
  }

  /** A plain key reaches its own record and no other. */
  lemma PlainKeyReachesItself(key: string, other: string)
    requires forall i :: 0 <= i < |key| ==> key[i] != '*'
    ensures Matches(CacheKey(key), CacheKey(other)) <==> other == key
  {
    MatchesAfterPrefix(CachePrefix + "_", key, other);
    LiteralMatchesItself(key, other);
  }

  // --------------------------------------------------------- invalidation

  /** The cached keys a pattern reaches. */
  function MatchingKeys<V>(store: map<string, Entry<V>>, pattern: string): set<string> {
    set k | k in store && Matches(CacheKey(pattern), k)
  }

  /** The cached keys an `invalidate` argument reaches. */
  function Selected<V>(store: map<string, Entry<V>>, arg: KeyArg): set<string> {
    match arg
    case Pattern(p) => MatchingKeys(store, p)
    case Many(ps) => SelectedAll(store, ps)
    case Other => {}
  }

  function SelectedAll<V>(store: map<string, Entry<V>>, ps: seq<string>): set<string> {
    set k | k in store && exists i :: 0 <= i < |ps| && Matches(CacheKey(ps[i]), k)
  }

  /** The store with the records at `keys` flagged as invalidated. */
  function Invalidated<V>(store: map<string, Entry<V>>, keys: set<string>): map<string, Entry<V>> {
    map k | k in store :: if k in keys then store[k].(invalidated := true) else store[k]
  }

  /** Invalidation keeps every record and its value and expiry, and flags
      exactly the chosen records (besides those already flagged). */
  lemma InvalidatedKeepsValues<V>(store: map<string, Entry<V>>, keys: set<string>)
    ensures Invalidated(store, keys).Keys == store.Keys
    ensures forall k :: k in store ==>
              && Invalidated(store, keys)[k].value == store[k].value
              && Invalidated(store, keys)[k].expiredAt == store[k].expiredAt
              && (Invalidated(store, keys)[k].invalidated <==> k in keys || store[k].invalidated)
  {
  }

  /** Invalidating in two steps is invalidating the union. */
  lemma InvalidatedTwice<V>(store: map<string, Entry<V>>, first: set<string>, second: set<string>)
    ensures Invalidated(Invalidated(store, first), second) == Invalidated(store, first + second)
  {
    var a := Invalidated(Invalidated(store, first), second);
    var b := Invalidated(store, first + second);
    assert a.Keys == b.Keys;
    forall k | k in a ensures a[k] == b[k] {
    }
  }

  /** Invalidating again changes nothing. */
  lemma InvalidateIdempotent<V>(store: map<string, Entry<V>>, keys: set<string>)
    ensures Invalidated(Invalidated(store, keys), keys) == Invalidated(store, keys)
  {
    InvalidatedTwice(store, keys, keys);
    assert keys + keys == keys;
  }

  /** Which keys a pattern reaches does not depend on the flags. */
  lemma MatchingKeysAfterInvalidate<V>(store: map<string, Entry<V>>, keys: set<string>, pattern: string)
    ensures MatchingKeys(Invalidated(store, keys), pattern) == MatchingKeys(store, pattern)
  {
  }

  /** A later `set` replaces the record, so an invalidated key reads as
      fresh again; the other records are untouched. */
  lemma SetClearsInvalidation<V>(store: map<string, Entry<V>>, keys: set<string>, key: string, value: V,
                                 softTimeout: Option<real>, now: real)
    ensures var after := StoredAt(Invalidated(store, keys), key, value, softTimeout, now);
            && after[CacheKey(key)].value == value && !after[CacheKey(key)].invalidated
            && forall k :: k in store && k != CacheKey(key) ==> after[k] == Invalidated(store, keys)[k]
  {
  }

  /** A value just stored is stale only after its soft timeout has passed. */
  lemma StoredStaleAfterTimeout<V>(store: map<string, Entry<V>>, key: string, value: V,
                                   softTimeout: Option<real>, now: real, later: real)
    ensures var e := StoredAt(store, key, value, softTimeout, now)[CacheKey(key)];
            e.value == value
            && (Stale(e, later) <==> softTimeout.Some? && softTimeout.value != 0.0 && now + softTimeout.value != 0.0 && now + softTimeout.value < later)
  {
  }

  // --------------------------------------------------------------- manager

  class SoftCacheManager<V> {
    /** The records of the cache backend. */
    var store: map<string, Entry<V>>
    /** The keys whose recompute has been handed to the task queue. */
    var scheduled: seq<string>

    constructor ()
      ensures store == map[] && scheduled == []
    {
      store := map[];
      scheduled := [];
    }

    /** `get`: a cached value is returned as it is, stale or not, and a stale
        one is scheduled for recomputation; a missing one is computed and
        stored when `calculate` (the value `calculate_func` would return) is
        given, else the answer is None. */
    method Get(key: string, calculate: Option<V>, softTimeout: Option<real>, now: real) returns (r: Option<V>)
      modifies this
      ensures CacheKey(key) in old(store) ==>
                && r == Some(old(store)[CacheKey(key)].value) && store == old(store)
                && scheduled == old(scheduled) + (if Stale(old(store)[CacheKey(key)], now) then [key] else [])
      ensures CacheKey(key) !in old(store) ==>
                && r == calculate && scheduled == old(scheduled)
                && store == (if calculate.Some? then StoredAt(old(store), key, calculate.value, softTimeout, now) else old(store))
    {
      var k := CacheKey(key);
      if k in store {
        var e := store[k];
        if (e.expiredAt.Some? && e.expiredAt.value != 0.0 && e.expiredAt.value < now) || e.invalidated {
          scheduled := scheduled + [key];
        }
        return Some(e.value);
      } else if calculate.Some? {
        Set(key, calculate.value, softTimeout, now);
        return calculate;
      }
      return None;
    }

    /** `set`: a new record, not invalidated, expiring `softTimeout` after `now`. */
    method Set(key: string, value: V, softTimeout: Option<real>, now: real)
      modifies this
      ensures store == StoredAt(old(store), key, value, softTimeout, now) && scheduled == old(scheduled)
    {
      store := store[CacheKey(key) := Entry(value, ExpiresAt(now, softTimeout), false)];
    }

    /** `_invalidate`: flags the record under a full cache key, if any. */
    method InvalidateKey(k: string)
      modifies this
      ensures store == Invalidated(old(store), {k}) && scheduled == old(scheduled)
    {
      if k in store {
        store := store[k := store[k].(invalidated := true)];
      }
      assert store == Invalidated(old(store), {k});
    }

    /** `invalidate`: every key a pattern reaches, each listed pattern in
        turn, or nothing. */
    method Invalidate(arg: KeyArg)
      modifies this
      ensures store == Invalidated(old(store), Selected(old(store), arg)) && scheduled == old(scheduled)
      decreases if arg.Many? then 2 else 0
    {
      match arg
      case Pattern(p) =>
        var keys := MatchingKeys(store, p);
        var remaining := keys;
        while remaining != {}
          invariant remaining <= keys
          invariant store == Invalidated(old(store), keys - remaining) && scheduled == old(scheduled)
          decreases |remaining|
        {
          var k :| k in remaining;
          InvalidateKey(k);
          InvalidatedTwice(old(store), keys - remaining, {k});
          assert keys - remaining + {k} == keys - (remaining - {k});
          remaining := remaining - {k};
        }
        assert keys - remaining == keys;
      case Many(ps) =>
        InvalidateMany(ps);
      case Other =>
        assert store == Invalidated(old(store), {});
    }

    /** `invalidate_many`: `invalidate` on each pattern in order. */
    method InvalidateMany(ps: seq<string>)
      modifies this
      ensures store == Invalidated(old(store), SelectedAll(old(store), ps)) && scheduled == old(scheduled)
      decreases 1
    {
      var i := 0;
      assert store == Invalidated(old(store), SelectedAll(old(store), ps[..0]));
      while i < |ps|
        invariant 0 <= i <= |ps|
        invariant store == Invalidated(old(store), SelectedAll(old(store), ps[..i])) && scheduled == old(scheduled)
      {
        ghost var done := SelectedAll(old(store), ps[..i]);
        MatchingKeysAfterInvalidate(old(store), done, ps[i]);
        Invalidate(Pattern(ps[i]));
        InvalidatedTwice(old(store), done, MatchingKeys(old(store), ps[i]));
        SelectedAllOneMore(old(store), ps, i);
        i := i + 1;
      }
      assert ps[..i] == ps;
    }
  }

  lemma SelectedAllOneMore<V>(store: map<string, Entry<V>>, ps: seq<string>, i: int)
    requires 0 <= i < |ps|
    ensures SelectedAll(store, ps[..i + 1]) == SelectedAll(store, ps[..i]) + MatchingKeys(store, ps[i])
  {
    var a := SelectedAll(store, ps[..i + 1]);
    var b := SelectedAll(store, ps[..i]) + MatchingKeys(store, ps[i]);
    forall k | k in a ensures k in b {
      var j :| 0 <= j < i + 1 && Matches(CacheKey(ps[..i + 1][j]), k);
      if j < i {
        assert ps[..i][j] == ps[..i + 1][j];
      }
    }
    forall k | k in b ensures k in a {
      if k in SelectedAll(store, ps[..i]) {
        var j :| 0 <= j < i && Matches(CacheKey(ps[..i][j]), k);
        assert ps[..i + 1][j] == ps[..i][j];
      } else {
        assert ps[..i + 1][i] == ps[i];
      }
    }
  }
}
