/** The two-tier response cache: Redis with expiry in front of an in-memory dictionary without. */
module Cache {
  import opened Wrappers
  import opened CacheKeys

  /** Seconds. */
  type Time = int

  datatype Entry = Entry(value: string, expiresAt: Time)

  predicate Live(redis: map<string, Entry>, key: string, now: Time) {
    key in redis && now < redis[key].expiresAt
  }

  function TotalKeys(batches: seq<seq<string>>): nat {
    if batches == [] then 0 else |batches[0]| + TotalKeys(batches[1..])
  }

  function MatchingKeys(m: map<string, string>, glob: Matcher, pattern: string): set<string> {
    set k | k in m && glob(pattern, k)
  }

  /** A SCAN returns, over its batches, every key that matches and is there throughout, and only matching keys. */
  ghost predicate CompleteScan(batches: seq<seq<string>>, redis: map<string, Entry>, now: Time, glob: Matcher, pattern: string) {
    && (forall k :: Live(redis, k, now) && glob(pattern, k) ==> exists i :: 0 <= i < |batches| && k in batches[i])
    && (forall i, k :: 0 <= i < |batches| && k in batches[i] ==> glob(pattern, k))
  }

  class RedisCache<V> {
    const namespace: string
    const hasRedis: bool
    const loads: string -> Option<V>
    const redisGlob: Matcher                   // MATCH of the SCAN command
    const fnmatch: Matcher                     // fnmatch.fnmatch
    var now: Time                              // the Redis server's clock
    var redis: map<string, Entry>
    var memory: map<string, string>

    /** Without a server there is nothing in it. */
    ghost predicate Wired()
      reads this
    {
      !hasRedis ==> redis == map[]
    }

    /** The tiers agree: every live entry in Redis is the in-memory entry of its key. */
    ghost predicate Valid()
      reads this
    {
      Wired() && forall k :: Live(redis, k, now) ==> k in memory && memory[k] == redis[k].value
    }

    /** What the cache means: the serialised value last set and not deleted. */
    ghost function Contents(): map<string, string>
      reads this
    {
      memory
    }

    /** Reading a serialised value; an empty string reads as nothing. */
    function Parse(raw: string): Option<V> {
      if raw == "" then None else loads(raw)
    }

    constructor (namespace: string, hasRedis: bool, loads: string -> Option<V>, redisGlob: Matcher, fnmatch: Matcher)
      ensures Valid() && Contents() == map[] && this.namespace == namespace && this.hasRedis == hasRedis
      ensures this.loads == loads && this.redisGlob == redisGlob && this.fnmatch == fnmatch
    {
      this.namespace, this.hasRedis, this.loads, this.redisGlob, this.fnmatch := namespace, hasRedis, loads, redisGlob, fnmatch;
      now, redis, memory := 0, map[], map[];
    }

    /** Time passes, and entries in Redis run out; what the cache means does not change. */
    method Tick(dt: nat)
      requires Wired()
      modifies `now
      ensures Wired() && (old(Valid()) ==> Valid()) && Contents() == old(Contents())
    {
      now := now + dt;
    }

    /** Redis answers first, agreeing or not; when the tiers agree, that is reading what the cache means. */
    method GetJson(key: string) returns (value: Option<V>)
      requires Wired()
      ensures var k := FullKey(namespace, key);
              value == if k in redis && now < redis[k].expiresAt then (if redis[k].value == "" then None else loads(redis[k].value))
                       else if k in memory then (if memory[k] == "" then None else loads(memory[k]))
                       else None
      ensures Valid() ==>
                value == if FullKey(namespace, key) in Contents() then Parse(Contents()[FullKey(namespace, key)]) else None
    {
      var fullKey := FullKey(namespace, key);
      var raw: Option<string> := None;
      if hasRedis && Live(redis, fullKey, now) {
        raw := Some(redis[fullKey].value);
      }
      if raw.None? && fullKey in memory {
        raw := Some(memory[fullKey]);
      }
      if raw.None? || raw.value == "" {
        return None;
      }
      return loads(raw.value);
    }

    /**
      * `serialized` is None when the value cannot be serialised. Redis refuses a lifetime that is not positive
      * and keeps what it had, while the dictionary takes the new value: then, and only then, the tiers can differ.
      */
    method SetJson(key: string, serialized: Option<string>, ttlSeconds: int)
      requires Wired()
      modifies `redis, `memory
      ensures Wired()
      ensures old(Valid()) ==>
                (Valid() <==>
                 || ttlSeconds > 0 || serialized.None? || !Live(old(redis), FullKey(namespace, key), now)
                 || old(redis)[FullKey(namespace, key)].value == serialized.value)
      ensures redis == if serialized.Some? && hasRedis && ttlSeconds > 0
                       then old(redis)[FullKey(namespace, key) := Entry(serialized.value, now + ttlSeconds)] else old(redis)
      ensures Contents() == if serialized.Some? then old(Contents())[FullKey(namespace, key) := serialized.value] else old(Contents())
    {
      if serialized.None? {
        return;
      }
      var fullKey := FullKey(namespace, key);
      if hasRedis && ttlSeconds > 0 {
        redis := redis[fullKey := Entry(serialized.value, now + ttlSeconds)];
      }
      memory := memory[fullKey := serialized.value];
      assert Live(redis, fullKey, now) ==> redis[fullKey].value == serialized.value || ttlSeconds <= 0;
    }

    method Delete(key: string)
      requires Wired()
      modifies `redis, `memory
      ensures Wired() && (old(Valid()) ==> Valid())
      ensures Contents() == old(Contents()) - {FullKey(namespace, key)} && redis == old(redis) - {FullKey(namespace, key)}
    {
      var fullKey := FullKey(namespace, key);
      if hasRedis {
        redis := redis - {fullKey};
      }
      memory := memory - {fullKey};
    }

    /**
      * `batches` is what the SCAN loop is given; the in-memory keys are matched all at once. The tiers stay in
      * agreement exactly when Redis matches every live key that `fnmatch` does, as for every simple pattern.
      */
    method DeletePattern(pattern: string, batches: seq<seq<string>>) returns (deleted: nat)
      requires Wired()
      requires hasRedis ==> CompleteScan(batches, redis, now, redisGlob, FullKey(namespace, pattern))
      modifies `redis, `memory
      ensures Wired()
      ensures Contents() == map k | k in old(Contents()) && !fnmatch(FullKey(namespace, pattern), k) :: old(Contents())[k]
      ensures forall k :: Live(redis, k, now) <==> Live(old(redis), k, now) && !redisGlob(FullKey(namespace, pattern), k)
      ensures forall k :: k in redis ==> k in old(redis) && redis[k] == old(redis)[k]
      ensures old(Valid()) ==>
                (Valid() <==> forall k :: Live(old(redis), k, now) && fnmatch(FullKey(namespace, pattern), k) ==>
                                            redisGlob(FullKey(namespace, pattern), k))
      ensures old(Valid()) && Simple(FullKey(namespace, pattern)) ==> Valid()
      ensures deleted == (if hasRedis then TotalKeys(batches) else 0)
                         + |MatchingKeys(old(Contents()), fnmatch, FullKey(namespace, pattern))|
    {
      var fullPattern := FullKey(namespace, pattern);
      deleted := 0;
      if hasRedis {
        for i := 0 to |batches|
          invariant memory == old(memory)
          invariant deleted + TotalKeys(batches[i..]) == TotalKeys(batches)
          invariant forall k :: k in redis <==> k in old(redis) && forall j :: 0 <= j < i ==> k !in batches[j]
          invariant forall k :: k in redis ==> redis[k] == old(redis)[k]
        {
          redis := redis - set k | k in batches[i];
          deleted := deleted + |batches[i]|;
          assert batches[i..][1..] == batches[i + 1..];
        }
        assert TotalKeys(batches[|batches|..]) == 0;
      }
      var toRemove := MatchingKeys(memory, fnmatch, fullPattern);
      memory := memory - toRemove;
      deleted := deleted + |toRemove|;
      assert forall k :: Live(redis, k, now) <==> Live(old(redis), k, now) && !redisGlob(fullPattern, k);
    }

    /** Removes what was cached under a prefix, for one workspace if one is given. */
    method InvalidateCache(prefix: string, workspace: Option<string>, batches: seq<seq<string>>) returns (deleted: nat)
      requires Wired()
      requires hasRedis ==> CompleteScan(batches, redis, now, redisGlob, FullKey(namespace, InvalidationPattern(prefix, workspace)))
      modifies `redis, `memory
      ensures Wired()
      ensures Plain(namespace) && Plain(prefix) && (workspace.Some? ==> GlobFree(workspace.value)) ==>
                && (old(Valid()) ==> Valid())
                && forall other, r: Request, vary, md5: string -> string :: ':' !in other ==>
                     var key := FullKey(namespace, CacheKey(other, r, vary, md5));
                     (key in Contents() <==> key in old(Contents()) && !Covers(prefix, workspace, other, r, vary, md5))
      ensures forall k :: k in Contents() ==> k in old(Contents()) && Contents()[k] == old(Contents())[k]
    {
      var pattern := InvalidationPattern(prefix, workspace);
      deleted := DeletePattern(pattern, batches);
      if Plain(namespace) && Plain(prefix) && (workspace.Some? ==> GlobFree(workspace.value)) {
        assert Simple(FullKey(namespace, pattern));
        forall other, r: Request, vary, md5: string -> string | ':' !in other
          ensures var key := FullKey(namespace, CacheKey(other, r, vary, md5));
                  key in Contents() <==> key in old(Contents()) && !Covers(prefix, workspace, other, r, vary, md5)
        {
          InvalidationCovers(namespace, prefix, workspace, other, r, vary, md5);
        }
      }
    }
  }

  /** A lifetime that Redis refuses: the value set last is not the one read. */
  method RefusedLifetimeShowsOldValue(loads: string -> Option<int>, key: string)
    returns (cache: RedisCache<int>, before: Option<int>, after: Option<int>)
    ensures before == after == loads("old")
    ensures !cache.Valid() && FullKey("response", key) in cache.Contents() && cache.Contents()[FullKey("response", key)] == "new"
  {
    cache := new RedisCache("response", true, loads, Matches, Matches);
    cache.SetJson(key, Some("old"), 60);
    before := cache.GetJson(key);
    cache.SetJson(key, Some("new"), 0);
    after := cache.GetJson(key);
  }
}
