/** The in-memory response cache: a dictionary of timestamped values with a time to live and a size limit. Keys are
    strings `prefix:digest`; clock readings never fall. */
module ResponseCache {
  import opened Domain
  import opened Collections

  datatype Entry<V> = Entry(time: real, value: V)

  type Table<V> = map<string, Entry<V>>

  predicate Expired<V>(e: Entry<V>, now: real, ttl: real) {
    now - e.time > ttl
  }

  function Unexpired<V>(c: Table<V>, now: real, ttl: real): Table<V> {
    map k | k in c && !Expired(c[k], now, ttl) :: c[k]
  }

  /** What a lookup answers. */
  function Hit<V>(c: Table<V>, key: string, now: real, ttl: real): Option<V> {
    if key in c && !Expired(c[key], now, ttl) then Some(c[key].value) else None
  }

  ghost predicate Oldest<V>(c: Table<V>, k: string) {
    k in c && forall j | j in c :: c[k].time <= c[j].time
  }

  /** None stands for all keys; otherwise the keys that start with the prefix and a colon. */
  predicate Matches(prefix: Option<string>, key: string) {
    prefix.Some? ==> prefix.value + ":" <= key
  }

  /** A store reads the clock twice: before evicting and for the timestamp. */
  datatype Op<V> =
    | Get(key: string, now: real)
    | Set(key: string, value: V, now: real, stamp: real)
    | Invalidate(prefix: Option<string>)

  /** One operation on the table. At the limit a store first drops what has expired and then, if that was not enough,
      some oldest entry; a limit below one leaves nothing to drop and the store raises, changing nothing more. */
  ghost predicate Step<V>(c: Table<V>, op: Op<V>, c': Table<V>, ttl: real, maxEntries: int) {
    match op
    case Get(key, now) => c' == if key in c && Expired(c[key], now, ttl) then c - {key} else c
    case Set(key, value, now, stamp) =>
      var room := if |c| >= maxEntries then Unexpired(c, now, ttl) else c;
      if |room| < maxEntries then c' == room[key := Entry(stamp, value)]
      else if room == map[] then c' == room
      else exists k :: Oldest(room, k) && c' == (room - {k})[key := Entry(stamp, value)]
    case Invalidate(prefix) => c' == map k | k in c && !Matches(prefix, k) :: c[k]
  }

  class ResponseCache<V> {
    const ttl: real
    const maxEntries: int
    var cache: Table<V>

    constructor (ttl: real := 300.0, maxEntries: int := 1000)
      ensures this.ttl == ttl && this.maxEntries == maxEntries && cache == map[]
    {
      this.ttl, this.maxEntries, cache := ttl, maxEntries, map[];
    }

    method Lookup(key: string, now: real) returns (r: Option<V>)
      modifies this
      ensures Step(old(cache), Get(key, now), cache, ttl, maxEntries)
      ensures r == Hit(old(cache), key, now, ttl)
    {
      if key !in cache {
        return None;
      }
      var entry := cache[key];
      if now - entry.time > ttl {
        cache := cache - {key};
        return None;
      }
      r := Some(entry.value);
    }

    method EvictExpired(now: real)
      modifies this
      ensures cache == Unexpired(old(cache), now, ttl)
    {
      var expired := set k | k in cache && now - cache[k].time > ttl;
      var todo := expired;
      while todo != {}
        invariant todo <= expired
        invariant cache == old(cache) - (expired - todo)
        decreases |todo|
      {
        var k :| k in todo;
        cache := cache - {k};
        todo := todo - {k};
      }
      assert expired - todo == expired;
    }

    /** A key with the least timestamp. */
    method FindOldest() returns (oldest: string)
      requires cache != map[]
      ensures Oldest(cache, oldest)
    {
      var k :| k in cache;
      oldest := k;
      var todo := cache.Keys - {k};
      while todo != {}
        invariant todo <= cache.Keys && oldest in cache
        invariant forall j | j in cache && j !in todo :: cache[oldest].time <= cache[j].time
        decreases |todo|
      {
        var j :| j in todo;
        if cache[j].time < cache[oldest].time {
          oldest := j;
        }
        todo := todo - {j};
      }
    }

    method Store(key: string, value: V, now: real, stamp: real) returns (ok: bool)
      modifies this
      ensures Step(old(cache), Set(key, value, now, stamp), cache, ttl, maxEntries)
      ensures maxEntries >= 1 ==> ok
      ensures !ok ==> cache == map[]
    {
      if |cache| >= maxEntries {
        EvictExpired(now);
      }
      ok := true;
      if |cache| >= maxEntries {
        if cache == map[] {
          return false;
        }
        var oldest := FindOldest();
        cache := cache - {oldest};
      }
      cache := cache[key := Entry(stamp, value)];
    }

    method Drop(prefix: Option<string>) returns (count: nat)
      modifies this
      ensures Step(old(cache), Invalidate(prefix), cache, ttl, maxEntries)
      ensures count == |set k | k in old(cache) && Matches(prefix, k)|
    {
      if prefix.None? {
        count := |cache|;
        assert cache.Keys == set k | k in cache && Matches(prefix, k);
        cache := map[];
        return count;
      }
      var toRemove := set k | k in cache && prefix.value + ":" <= k;
      assert toRemove == set k | k in cache && Matches(prefix, k);
      cache := cache - toRemove;
      count := |toRemove|;
    }
  }

  // --------------------------------------------------------------------- runs

  /** The tables before and after each operation of a run that starts empty. */
  ghost predicate IsRun<V(!new)>(ops: seq<Op<V>>, tables: seq<Table<V>>, ttl: real, maxEntries: int) {
    && |tables| == |ops| + 1 && tables[0] == map[]
    && forall i | 0 <= i < |ops| :: Step(tables[i], ops[i], tables[i + 1], ttl, maxEntries)
  }

  /** What each key was last set to since it was last invalidated. */
  ghost function LastSet<V>(ops: seq<Op<V>>): Table<V> {
    if ops == [] then map[]
    else
      var before := LastSet(ops[..|ops| - 1]);
      match ops[|ops| - 1]
      case Get(_, _) => before
      case Set(key, value, _, stamp) => before[key := Entry(stamp, value)]
      case Invalidate(prefix) => map k | k in before && !Matches(prefix, k) :: before[k]
  }

  lemma UnexpiredNoMore<V>(c: Table<V>, now: real, ttl: real)
    ensures |Unexpired(c, now, ttl)| <= |c|
  {
    assert c == Unexpired(c, now, ttl) + map k | k in c && Expired(c[k], now, ttl) :: c[k];
    SubsetNoLarger(Unexpired(c, now, ttl).Keys, c.Keys);
  }

  lemma StepStaysSmall<V>(c: Table<V>, op: Op<V>, c': Table<V>, ttl: real, maxEntries: int)
    requires maxEntries >= 1 && Step(c, op, c', ttl, maxEntries) && |c| <= maxEntries
    ensures |c'| <= maxEntries
  {
    match op
    case Get(key, now) =>
      SubsetNoLarger(c'.Keys, c.Keys);
    case Set(key, value, now, stamp) =>
      UnexpiredNoMore(c, now, ttl);
      var room := if |c| >= maxEntries then Unexpired(c, now, ttl) else c;
      if |room| < maxEntries {
        assert c'.Keys == room.Keys + {key};
      } else {
        var k :| Oldest(room, k) && c' == (room - {k})[key := Entry(stamp, value)];
        assert c'.Keys == room.Keys - {k} + {key};
      }
    case Invalidate(prefix) =>
      SubsetNoLarger(c'.Keys, c.Keys);
  }

  /** After any run the cache is within its limit, and every entry in it, hence every hit, is the value last set for
      its key since the key was last invalidated, with that store's timestamp. */
  lemma {:induction false} CacheIsFaithful<V(!new)>(ops: seq<Op<V>>, tables: seq<Table<V>>, ttl: real, maxEntries: int)
    requires maxEntries >= 1 && IsRun(ops, tables, ttl, maxEntries)
    ensures |tables[|ops|]| <= maxEntries
    ensures forall k | k in tables[|ops|] :: k in LastSet(ops) && tables[|ops|][k] == LastSet(ops)[k]
  {
    if ops != [] {
      var n := |ops| - 1;
      CacheIsFaithful(ops[..n], tables[..n + 1], ttl, maxEntries);
      assert Step(tables[n], ops[n], tables[n + 1], ttl, maxEntries);
      StepStaysSmall(tables[n], ops[n], tables[n + 1], ttl, maxEntries);
    }
  }

  /** Why an unexpired entry is gone: it was invalidated, or a store came while at least `maxEntries` entries were
      unexpired and none of them was older. */
  ghost predicate LostFor<V>(c: Table<V>, op: Op<V>, k: string, ttl: real, maxEntries: int) {
    match op
    case Get(key, now) => k == key && k in c && Expired(c[k], now, ttl)
    case Set(_, _, now, _) =>
      k in c && (Expired(c[k], now, ttl)
                 || (|Unexpired(c, now, ttl)| >= maxEntries && Oldest(Unexpired(c, now, ttl), k)))
    case Invalidate(prefix) => Matches(prefix, k)
  }

  /** A lookup after any run hits only what was last set for the key since its last invalidation, and only while that
      is no older than the time to live. */
  lemma HitsAreCurrent<V(!new)>(ops: seq<Op<V>>, tables: seq<Table<V>>, ttl: real, maxEntries: int,
                               key: string, now: real)
    requires maxEntries >= 1 && IsRun(ops, tables, ttl, maxEntries)
    ensures var hit := Hit(tables[|ops|], key, now, ttl);
            hit.Some? ==> key in LastSet(ops) && hit.value == LastSet(ops)[key].value
                          && now - LastSet(ops)[key].time <= ttl
  {
    CacheIsFaithful(ops, tables, ttl, maxEntries);
  }

  /** Whatever disappears in a run disappears for one of those reasons. */
  lemma LossesExplained<V(!new)>(ops: seq<Op<V>>, tables: seq<Table<V>>, ttl: real, maxEntries: int, i: nat, k: string)
    requires IsRun(ops, tables, ttl, maxEntries)
    requires i < |ops| && k in tables[i] && k !in tables[i + 1]
    ensures LostFor(tables[i], ops[i], k, ttl, maxEntries)
  {
    assert Step(tables[i], ops[i], tables[i + 1], ttl, maxEntries);
  }

  /** An entry survives a run that neither sets its key again nor gives one of those reasons. */
  lemma {:induction false} EntrySurvives<V(!new)>(ops: seq<Op<V>>, tables: seq<Table<V>>, ttl: real, maxEntries: int,
                                                  i: nat, n: nat, k: string)
    requires IsRun(ops, tables, ttl, maxEntries) && i <= n <= |ops| && k in tables[i]
    requires forall j | i <= j < n :: !LostFor(tables[j], ops[j], k, ttl, maxEntries)
                                      && !(ops[j].Set? && ops[j].key == k)
    ensures k in tables[n] && tables[n][k] == tables[i][k]
  {
    if i < n {
      EntrySurvives(ops, tables, ttl, maxEntries, i, n - 1, k);
      assert Step(tables[n - 1], ops[n - 1], tables[n], ttl, maxEntries);
    }
  }

  /** What was stored at step `i` is hit by every later lookup within the time to live, unless some step between gave a
      reason to lose it or set the key again. */
  lemma StoredIsHit<V(!new)>(ops: seq<Op<V>>, tables: seq<Table<V>>, ttl: real, maxEntries: int, i: nat, now: real)
    requires maxEntries >= 1 && IsRun(ops, tables, ttl, maxEntries) && i < |ops| && ops[i].Set?
    requires forall j | i < j < |ops| :: !LostFor(tables[j], ops[j], ops[i].key, ttl, maxEntries)
                                         && !(ops[j].Set? && ops[j].key == ops[i].key)
    requires now - ops[i].stamp <= ttl
    ensures Hit(tables[|ops|], ops[i].key, now, ttl) == Some(ops[i].value)
  {
    StoreEnters(tables[i], ops[i], tables[i + 1], ttl, maxEntries);
    EntrySurvives(ops, tables, ttl, maxEntries, i + 1, |ops|, ops[i].key);
  }

  lemma StoreEnters<V>(c: Table<V>, op: Op<V>, c': Table<V>, ttl: real, maxEntries: int)
    requires maxEntries >= 1 && Step(c, op, c', ttl, maxEntries) && op.Set?
    ensures op.key in c' && c'[op.key] == Entry(op.stamp, op.value)
  {
  }

  /** The keys an invalidation hits, for digests without a colon: its own prefix, and any longer prefix that continues
      it after a colon. */
  lemma InvalidatedKeys(prefix: string, own: string, digest: string)
    requires ':' !in digest
    ensures Matches(Some(prefix), own + ":" + digest) <==> prefix == own || prefix + ":" <= own
  {
    var key := own + ":" + digest;
    var p := prefix + ":";
    if p <= key {
      assert key[|prefix|] == p[|prefix|] == ':';
      assert |prefix| <= |own|;
      assert key[..|own|] == own;
      if |prefix| == |own| {
        assert prefix == key[..|prefix|];
      } else {
        assert own[..|p|] == key[..|p|];
      }
    }
  }

  /** Invalidating "a" also drops what was stored under "a:b". */
  lemma LongerPrefixIsHit(digest: string)
    requires ':' !in digest
    ensures Matches(Some("a"), "a:b" + ":" + digest)
  {
    InvalidatedKeys("a", "a:b", digest);
  }
}
