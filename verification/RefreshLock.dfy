/** Refreshing OAuth tokens under a lock in Redis: one call at a time, run from start to end. */
module RefreshLock {
  import opened Wrappers
  import opened Encryption
  import opened TokenStore

  const LOCK_TTL: Time := 30 * 1000
  const NEAR_EXPIRY: Time := 5 * 60 * 1000
  const MAX_WAIT: Time := 5000
  const CHECK_INTERVAL: Time := 100

  datatype Lock = Lock(value: string, setAt: Time)

  predicate Live(lock: Option<Lock>, now: Time) {
    lock.Some? && now <= lock.value.setAt + LOCK_TTL
  }

  predicate NeedsRefresh(tokens: TokenData, now: Time) {
    now >= tokens.expiresAt - NEAR_EXPIRY
  }

  /** WhileWaiting: reading the tokens fails while another call holds the lock. */
  datatype RefreshError = NoTokens | NoTokensAfterWait | RefreshFailed | WhileWaiting(error: StoreError) | Store(error: StoreError)

  /** Every poll sleeps at least the check interval. */
  ghost predicate Spaced(clock: nat -> Time) {
    forall i: nat, j: nat :: i < j ==> clock(j) - clock(i) >= CHECK_INTERVAL * (j - i)
  }

  /** Successive readings of the clock in a polling loop. */
  type PollClock = f: nat -> Time | Spaced(f)
    ghost witness (i: nat) => CHECK_INTERVAL * i

  lemma ClockAdvances(clock: PollClock, n: nat)
    ensures clock(n) - clock(0) >= 100 * n
  {
  }

  /** What one getTokens call of the polling loop comes to; tokens are judged at the moment they are read. */
  datatype Poll = Failed(error: StoreError) | Missing | Found(tokens: TokenData, at: Time)

  predicate Fresh(p: Poll) {
    p.Found? && !NeedsRefresh(p.tokens, p.at)
  }

  /** The wait ends after `polls` polls: with fresh tokens, with a failed read, or with the time up, and not before. */
  ghost predicate WaitEnds(clock: PollClock, polled: nat -> Poll, polls: nat, error: Option<StoreError>) {
    && polls <= MAX_WAIT / CHECK_INTERVAL
    && (forall i :: 0 <= i < polls ==> clock(i) - clock(0) < MAX_WAIT)
    && (forall i :: 0 <= i < polls - 1 ==> !polled(i).Failed? && !Fresh(polled(i)))
    && (error.Some? <==> polls > 0 && polled(polls - 1).Failed?)
    && (error.Some? ==> polled(polls - 1) == Failed(error.value))
    && (error.None? ==> (polls > 0 && Fresh(polled(polls - 1))) || clock(polls) - clock(0) >= MAX_WAIT)
  }

  /** A wait can end in one way only. */
  lemma WaitEndsOnce(clock: PollClock, polled: nat -> Poll, m: nat, d: Option<StoreError>, n: nat, e: Option<StoreError>)
    requires WaitEnds(clock, polled, m, d) && WaitEnds(clock, polled, n, e)
    ensures m == n && d == e
  {
    hide Spaced;
  }

  /** Polls until the wait ends; at most fifty polls fit into it. */
  method WaitForRefresh(clock: PollClock, polled: nat -> Poll) returns (polls: nat, error: Option<StoreError>)
    ensures WaitEnds(clock, polled, polls, error)
    ensures polls <= 50
    ensures forall i :: 0 <= i < polls ==> clock(i) - clock(0) < 5_000
    ensures forall i :: 0 <= i < polls - 1 ==> polled(i).Found? ==> polled(i).tokens.expiresAt - polled(i).at <= 300_000
    ensures error.None? && clock(polls) - clock(0) < 5_000 ==>
              && polls > 0 && polled(polls - 1).Found?
              && polled(polls - 1).tokens.expiresAt - polled(polls - 1).at > 300_000
  {
    hide Spaced;
    polls := 0;
    while clock(polls) - clock(0) < MAX_WAIT
      invariant polls <= MAX_WAIT / CHECK_INTERVAL
      invariant forall i :: 0 <= i < polls ==> clock(i) - clock(0) < MAX_WAIT
      invariant forall i :: 0 <= i < polls ==> !polled(i).Failed? && !Fresh(polled(i))
      decreases MAX_WAIT / CHECK_INTERVAL - polls
    {
      ClockAdvances(clock, polls);
      var poll := polled(polls);
      polls := polls + 1;
      if poll.Failed? {
        return polls, Some(poll.error);
      }
      if Fresh(poll) {
        return polls, None;
      }
    }
    return polls, None;
  }

  ghost predicate WaitFails(clock: PollClock, polled: nat -> Poll, error: StoreError) {
    exists polls :: WaitEnds(clock, polled, polls, Some(error))
  }

  lemma WaitFailsExactly(clock: PollClock, polled: nat -> Poll, polls: nat, error: Option<StoreError>)
    requires WaitEnds(clock, polled, polls, error)
    ensures forall e :: WaitFails(clock, polled, e) <==> error == Some(e)
  {
    hide WaitEnds;
    forall e | WaitFails(clock, polled, e) ensures error == Some(e) {
      var n :| WaitEnds(clock, polled, n, Some(e));
      WaitEndsOnce(clock, polled, polls, error, n, Some(e));
    }
  }

  /** One key of the Redis server. */
  class RedisKey {
    var lock: Option<Lock>

    constructor ()
      ensures lock == None
    {
      lock := None;
    }

    method SetNx(now: Time, value: string) returns (acquired: bool)
      modifies this
      ensures acquired == !Live(old(lock), now)
      ensures acquired <==> old(lock).None? || now - old(lock).value.setAt > 30_000
      ensures lock == if acquired then Some(Lock(value, now)) else old(lock)
    {
      acquired := !Live(lock, now);
      if acquired {
        lock := Some(Lock(value, now));
      }
    }

    method Get(now: Time) returns (value: Option<string>)
      ensures value == if lock.Some? && now - lock.value.setAt <= 30_000 then Some(lock.value.value) else None
    {
      return if Live(lock, now) then Some(lock.value.value) else None;
    }

    method Del()
      modifies this
      ensures lock == None
    {
      lock := None;
    }
  }

  /**
    * What everybody else leaves behind by each step of a call: the tables and the process's key cache when it
    * reads and when it stores, and the lock when it gets and when it deletes.
    */
  datatype Others = Others(
    keysAtRead: KeyTable, tokensAtRead: TokenTable,
    keysAtStore: KeyTable, tokensAtStore: TokenTable, cacheAtStore: Cache,
    lockAtGet: Option<Lock>, lockAtDel: Option<Lock>)

  class TokenRefresher {
    const service: TokenService
    const redis: RedisKey

    constructor (service: TokenService, redis: RedisKey)
      ensures this.service == service && this.redis == redis
    {
      this.service, this.redis := service, redis;
    }

    /** The tokens an account's row holds, as the service reads them. */
    ghost function Read(keys: KeyTable, tokens: TokenTable, account: AccountId, tenant: TenantId): Result<Option<TokenData>, StoreError> {
      if account !in tokens then Ok(None)
      else
        var read := OpenTokens(service.vault, keys, tenant, tokens[account]);
        if read.Ok? then Ok(Some(read.value)) else Err(read.error)
    }

    /** The call that holds the lock: read, ask the provider if the tokens are near their end, store. */
    method RefreshHoldingLock(readAt: Time, storeAt: Time, others: Others, account: AccountId, tenant: TenantId,
                              answer: Option<TokenData>, supply: Supply)
      returns (r: Result<TokenData, RefreshError>)
      modifies service.prisma, service`dekCache
      ensures var before := Read(others.keysAtRead, others.tokensAtRead, account, tenant);
              var due := before.Ok? && before.value.Some? && before.value.value.expiresAt - readAt <= 300_000;
              var (use, keys, cache) := UseDek(service.vault, others.keysAtStore, others.cacheAtStore, storeAt, tenant, supply);
              if due && answer.Some? then
                && service.prisma.keys == keys && service.dekCache == cache
                && (if use.Err? then r == Err(Store(use.error)) && service.prisma.tokens == others.tokensAtStore
                    else r == Ok(answer.value) && service.prisma.tokens == others.tokensAtStore[account :=
                           SealTokens(service.vault, answer.value, use.value.key, use.value.keyId, use.value.version, supply)])
                && (KeysSound(service.vault, others.keysAtStore) && CacheSound(service.vault, others.keysAtStore, others.cacheAtStore)
                    && ':' !in supply.keyId ==>
                      && service.Valid() && r.Ok?
                      && Read(service.prisma.keys, service.prisma.tokens, account, tenant) == Ok(Some(answer.value)))
              else
                && service.prisma.keys == others.keysAtRead && service.prisma.tokens == others.tokensAtRead
                && service.dekCache == old(service.dekCache)
                && r == if before.Err? then Err(Store(before.error))
                        else if before.value.None? then Err(NoTokens)
                        else if due then Err(RefreshFailed)
                        else Ok(before.value.value)
      ensures r.Ok? ==> (answer.Some? && r.value == answer.value) || r.value.expiresAt > readAt + 300_000
    {
      hide OpenTokens, UseDek, KeysSound, CacheSound, CacheAgrees, SealTokens;
      service.prisma.keys, service.prisma.tokens := others.keysAtRead, others.tokensAtRead;
      var current := service.GetTokens(account, tenant);
      if current.Err? {
        return Err(Store(current.error));
      }
      if current.value.None? {
        return Err(NoTokens);
      }
      if !NeedsRefresh(current.value.value, readAt) {
        return Ok(current.value.value);
      }
      if answer.None? {
        return Err(RefreshFailed);
      }
      service.prisma.keys, service.prisma.tokens := others.keysAtStore, others.tokensAtStore;
      service.dekCache := others.cacheAtStore;
      var stored := service.StoreTokens(storeAt, account, tenant, answer.value, supply);
      return if stored.Ok? then Ok(answer.value) else Err(Store(stored.error));
    }

    /**
      * `answer` is what the provider's token endpoint returns for the current refresh token, if asked. The clock
      * is read at the lock, at the read of the tokens, at the store and at the release, and `others` says what
      * every other process has made of the shared state by then.
      */
    method RefreshTokensWithLock(lockAt: Time, readAt: Time, storeAt: Time, releaseAt: Time, others: Others,
                                 clock: PollClock, polled: nat -> Poll, account: AccountId, tenant: TenantId,
                                 lockValue: string, answer: Option<TokenData>, supply: Supply)
      returns (r: Result<TokenData, RefreshError>)
      modifies redis, service.prisma, service`dekCache
      ensures var taken := old(redis.lock).Some? && lockAt - old(redis.lock).value.setAt <= 30_000;
              var lock := others.lockAtGet;
              redis.lock == if taken then old(redis.lock)
                            else if lock.Some? && releaseAt - lock.value.setAt <= 30_000 && lock.value.value == lockValue then None
                            else lock
      ensures var before := Read(others.keysAtRead, others.tokensAtRead, account, tenant);
              var taken := old(redis.lock).Some? && lockAt - old(redis.lock).value.setAt <= 30_000;
              var due := before.Ok? && before.value.Some? && before.value.value.expiresAt - readAt <= 300_000;
              var (use, keys, cache) := UseDek(service.vault, others.keysAtStore, others.cacheAtStore, storeAt, tenant, supply);
              if !taken && due && answer.Some? then
                && service.prisma.keys == keys && service.dekCache == cache
                && (if use.Err? then r == Err(Store(use.error)) && service.prisma.tokens == others.tokensAtStore
                    else r == Ok(answer.value) && service.prisma.tokens == others.tokensAtStore[account :=
                           SealTokens(service.vault, answer.value, use.value.key, use.value.keyId, use.value.version, supply)])
                && (KeysSound(service.vault, others.keysAtStore) && CacheSound(service.vault, others.keysAtStore, others.cacheAtStore)
                    && ':' !in supply.keyId ==>
                      && service.Valid() && r.Ok?
                      && Read(service.prisma.keys, service.prisma.tokens, account, tenant) == Ok(Some(answer.value)))
              else if taken && r.Err? && r.error.WhileWaiting? then
                && WaitFails(clock, polled, r.error.error)
                && unchanged(service.prisma) && service.dekCache == old(service.dekCache)
              else
                && service.prisma.keys == others.keysAtRead && service.prisma.tokens == others.tokensAtRead
                && service.dekCache == old(service.dekCache)
                && (!taken || !exists e :: WaitFails(clock, polled, e))
                && r == if before.Err? then Err(Store(before.error))
                        else if before.value.None? then Err(if taken then NoTokensAfterWait else NoTokens)
                        else if !taken && due then Err(RefreshFailed)
                        else Ok(before.value.value)
      ensures r.Ok? && (old(redis.lock).None? || lockAt - old(redis.lock).value.setAt > 30_000) ==>
                (answer.Some? && r.value == answer.value) || r.value.expiresAt > readAt + 300_000
    {
      hide Live, OpenTokens, UseDek, KeysSound, CacheSound, CacheAgrees, SealTokens, WaitEnds, WaitFails, NeedsRefresh;
      var acquired := redis.SetNx(lockAt, lockValue);
      if !acquired {
        var polls, error := WaitForRefresh(clock, polled);
        WaitFailsExactly(clock, polled, polls, error);
        if error.Some? {
          return Err(WhileWaiting(error.value));
        }
        service.prisma.keys, service.prisma.tokens := others.keysAtRead, others.tokensAtRead;
        var tokens := service.GetTokens(account, tenant);
        return if tokens.Err? then Err(Store(tokens.error))
               else if tokens.value.None? then Err(NoTokensAfterWait) else Ok(tokens.value.value);
      }
      r := RefreshHoldingLock(readAt, storeAt, others, account, tenant, answer, supply);
      redis.lock := others.lockAtGet;
      var currentValue := redis.Get(releaseAt);
      if currentValue == Some(lockValue) {
        redis.lock := others.lockAtDel;
        redis.Del();
      }
    }
  }
}
