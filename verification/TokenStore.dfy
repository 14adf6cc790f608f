/** OAuth tokens at rest: the key table, the token table and the in-process cache of data keys. */
module TokenStore {
  import opened Wrappers
  import opened Encryption

  type TenantId = string
  type AccountId = string

  /** Milliseconds. */
  type Time = int

  const DEK_CACHE_TTL: Time := 5 * 60 * 1000

  datatype KeyRow = KeyRow(id: string, keyEncrypted: string, active: bool)

  /** At most one row per tenant and version, as the table's unique constraint says. */
  type KeyTable = map<(TenantId, int), KeyRow>

  datatype TokenData = TokenData(accessToken: Token, refreshToken: Token, expiresAt: Time)

  datatype TokenRow = TokenRow(accessTokenEnc: string, refreshTokenEnc: string, expiresAt: Time,
                               keyVersion: int, encryptionKeyId: string)

  type TokenTable = map<AccountId, TokenRow>

  datatype CacheEntry = CacheEntry(key: Key, expiresAt: Time)

  type Cache = map<TenantId, CacheEntry>

  /** The cipher and the master key of the installation. */
  datatype Vault = Vault(cipher: Aead, kek: Key)

  /** What the random generators and the database supply to one store. */
  datatype Supply = Supply(dek: Key, keyId: string, dekIv: Token, accessIv: Token, refreshIv: Token)

  /** KeyExists: the unique constraint refuses a second row of the same tenant and version. */
  datatype StoreError = KeyNotFound | KeyExists | Crypto(error: CryptoError)

  /** The key to seal with, and what to write down about it. */
  datatype DekUse = DekUse(key: Key, keyId: string, version: int)

  ghost predicate LatestActive(keys: KeyTable, tenant: TenantId, version: int) {
    && (tenant, version) in keys && keys[(tenant, version)].active
    && forall v :: (tenant, v) in keys && keys[(tenant, v)].active ==> v <= version
  }

  ghost function LatestVersion(keys: KeyTable, tenant: TenantId): Option<int> {
    if exists v :: LatestActive(keys, tenant, v) then
      var v :| LatestActive(keys, tenant, v); Some(v)
    else None
  }

  predicate Unexpired(cache: Cache, tenant: TenantId, now: Time) {
    tenant in cache && cache[tenant].expiresAt > now
  }

  function NewKeyRow(vault: Vault, supply: Supply): KeyRow {
    KeyRow(supply.keyId, EncryptDataKey(vault.cipher, vault.kek, supply.dek, supply.dekIv), true)
  }

  function SealTokens(vault: Vault, tokens: TokenData, dek: Key, keyId: string, version: int, supply: Supply): TokenRow {
    TokenRow(
      EncryptToken(vault.cipher, tokens.accessToken, dek, keyId, version, supply.accessIv),
      EncryptToken(vault.cipher, tokens.refreshToken, dek, keyId, version, supply.refreshIv),
      tokens.expiresAt, version, keyId)
  }

  /** Reading a token row through the key of the row's own version. */
  function OpenTokens(vault: Vault, keys: KeyTable, tenant: TenantId, row: TokenRow): Result<TokenData, StoreError> {
    if (tenant, row.keyVersion) !in keys then Err(KeyNotFound)
    else
      var dek := DecryptDataKey(vault.cipher, vault.kek, keys[(tenant, row.keyVersion)].keyEncrypted);
      if dek.Err? then Err(Crypto(dek.error))
      else
        var access := DecryptToken(vault.cipher, row.accessTokenEnc, dek.value);
        if access.Err? then Err(Crypto(access.error))
        else
          var refresh := DecryptToken(vault.cipher, row.refreshTokenEnc, dek.value);
          if refresh.Err? then Err(Crypto(refresh.error))
          else Ok(TokenData(access.value.token, refresh.value.token, row.expiresAt))
  }

  /** A key table written only by this service: one readable, active key of version 1 per tenant. */
  ghost predicate KeysSound(vault: Vault, keys: KeyTable) {
    forall tenant, v :: (tenant, v) in keys ==>
      && v == 1
      && keys[(tenant, v)].active
      && ':' !in keys[(tenant, v)].id
      && DecryptDataKey(vault.cipher, vault.kek, keys[(tenant, v)].keyEncrypted).Ok?
  }

  /** `key` is what the tenant's key row decrypts to. */
  ghost predicate IsTenantKey(vault: Vault, keys: KeyTable, tenant: TenantId, key: Key) {
    (tenant, 1) in keys && DecryptDataKey(vault.cipher, vault.kek, keys[(tenant, 1)].keyEncrypted) == Ok(key)
  }

  ghost predicate CacheSound(vault: Vault, keys: KeyTable, cache: Cache) {
    forall tenant :: tenant in cache ==> IsTenantKey(vault, keys, tenant, cache[tenant].key)
  }

  /** What getOrCreateDek does to any key table and cache: its answer, and the table and cache it leaves. */
  ghost function UseDek(vault: Vault, keys: KeyTable, cache: Cache, now: Time, tenant: TenantId, supply: Supply)
    : (Result<DekUse, StoreError>, KeyTable, Cache)
  {
    var found := LatestVersion(keys, tenant);
    if found.None? then
      if (tenant, 1) in keys then (Err(KeyExists), keys, cache)
      else
        (Ok(DekUse(supply.dek, supply.keyId, 1)),
         keys[(tenant, 1) := NewKeyRow(vault, supply)],
         cache[tenant := CacheEntry(supply.dek, now + DEK_CACHE_TTL)])
    else
      var row := keys[(tenant, found.value)];
      if Unexpired(cache, tenant, now) then (Ok(DekUse(cache[tenant].key, row.id, found.value)), keys, cache)
      else
        var dek := DecryptDataKey(vault.cipher, vault.kek, row.keyEncrypted);
        if dek.Err? then (Err(Crypto(dek.error)), keys, cache)
        else (Ok(DekUse(dek.value, row.id, found.value)), keys, cache[tenant := CacheEntry(dek.value, now + DEK_CACHE_TTL)])
  }

  /** The cached key, if it is going to be used, is that of the latest active row. */
  ghost predicate CacheAgrees(vault: Vault, keys: KeyTable, cache: Cache, now: Time, tenant: TenantId) {
    var found := LatestVersion(keys, tenant);
    Unexpired(cache, tenant, now) && found.Some? ==>
      DecryptDataKey(vault.cipher, vault.kek, keys[(tenant, found.value)].keyEncrypted) == Ok(cache[tenant].key)
  }

  /** `use` names a key row and holds the key the row decrypts to. */
  ghost predicate Matching(vault: Vault, keys: KeyTable, tenant: TenantId, use: DekUse) {
    && (tenant, use.version) in keys
    && keys[(tenant, use.version)].id == use.keyId
    && DecryptDataKey(vault.cipher, vault.kek, keys[(tenant, use.version)].keyEncrypted) == Ok(use.key)
  }

  /** Whatever rows the key table holds, the key given out is its row's exactly if the cache agrees with the table. */
  lemma UseDekMatchesExactly(vault: Vault, keys: KeyTable, cache: Cache, now: Time, tenant: TenantId, supply: Supply)
    ensures var (use, grown, _) := UseDek(vault, keys, cache, now, tenant, supply);
            && (forall k :: k in keys ==> k in grown && grown[k] == keys[k])
            && (use.Ok? ==> (Matching(vault, grown, tenant, use.value) <==> CacheAgrees(vault, keys, cache, now, tenant)))
  {
    hide DecryptDataKey, EncryptDataKey;
    DataKeyRoundTrip(vault.cipher, vault.kek, supply.dek, supply.dekIv);
  }

  /** Sealing with a row's key and reading back through the key table gives the same tokens. */
  lemma SealedTokensOpen(vault: Vault, keys: KeyTable, tenant: TenantId, use: DekUse, tokens: TokenData, supply: Supply)
    requires Matching(vault, keys, tenant, use) && ':' !in use.keyId
    ensures OpenTokens(vault, keys, tenant, SealTokens(vault, tokens, use.key, use.keyId, use.version, supply)) == Ok(tokens)
  {
    hide DecryptDataKey, DecryptToken, EncryptToken;
    TokenRoundTrip(vault.cipher, tokens.accessToken, use.key, use.keyId, use.version, supply.accessIv);
    TokenRoundTrip(vault.cipher, tokens.refreshToken, use.key, use.keyId, use.version, supply.refreshIv);
  }

  lemma NewKeyIsSound(vault: Vault, keys: KeyTable, tenant: TenantId, supply: Supply)
    requires KeysSound(vault, keys) && (tenant, 1) !in keys && ':' !in supply.keyId
    ensures var grown := keys[(tenant, 1) := NewKeyRow(vault, supply)];
            KeysSound(vault, grown) && IsTenantKey(vault, grown, tenant, supply.dek)
  {
    DataKeyRoundTrip(vault.cipher, vault.kek, supply.dek, supply.dekIv);
  }

  lemma LatestVersionIsOne(vault: Vault, keys: KeyTable, tenant: TenantId)
    requires KeysSound(vault, keys)
    ensures LatestVersion(keys, tenant) == if (tenant, 1) in keys then Some(1) else None
  {
    if (tenant, 1) in keys {
      assert LatestActive(keys, tenant, 1);
    }
  }

  /** Over a key table and a cache of this service's own making, a key is always given out, and it is the tenant's. */
  lemma UseDekKeepsSound(vault: Vault, keys: KeyTable, cache: Cache, now: Time, tenant: TenantId, supply: Supply)
    requires KeysSound(vault, keys) && CacheSound(vault, keys, cache) && ':' !in supply.keyId
    ensures var (use, grown, filled) := UseDek(vault, keys, cache, now, tenant, supply);
            && KeysSound(vault, grown) && CacheSound(vault, grown, filled)
            && use.Ok? && use.value.version == 1 && Matching(vault, grown, tenant, use.value) && ':' !in use.value.keyId
            && CacheAgrees(vault, keys, cache, now, tenant)
  {
    hide DecryptDataKey, EncryptDataKey, LatestVersion;
    LatestVersionIsOne(vault, keys, tenant);
    if (tenant, 1) !in keys {
      NewKeyIsSound(vault, keys, tenant, supply);
    }
  }

  lemma {:induction false} LatestExists(rows: set<(TenantId, int)>)
    requires rows != {}
    ensures exists k :: k in rows && forall l :: l in rows ==> l.1 <= k.1
    decreases |rows|
  {
    var x :| x in rows;
    var rest := rows - {x};
    assert forall l :: l in rows ==> l == x || l in rest;
    if rest != {} {
      LatestExists(rest);
      var y :| y in rest && forall l :: l in rest ==> l.1 <= y.1;
      var z := if x.1 <= y.1 then y else x;
      assert z in rows && forall l :: l in rows ==> l.1 <= z.1;
    }
  }

  class Prisma {
    var keys: KeyTable
    var tokens: TokenTable

    constructor ()
      ensures keys == map[] && tokens == map[]
    {
      keys, tokens := map[], map[];
    }
  }

  class TokenService {
    const prisma: Prisma
    const vault: Vault
    var dekCache: Cache

    ghost predicate Valid()
      reads this, prisma
    {
      KeysSound(vault, prisma.keys) && CacheSound(vault, prisma.keys, dekCache)
    }

    constructor (prisma: Prisma, vault: Vault)
      ensures this.prisma == prisma && this.vault == vault && dekCache == map[]
      ensures KeysSound(vault, prisma.keys) ==> Valid()
    {
      this.prisma, this.vault, this.dekCache := prisma, vault, map[];
    }

    /** The highest version among the tenant's active rows, in any key table. */
    method FindActiveKey(tenant: TenantId) returns (version: Option<int>)
      ensures version.Some? ==>
                && (tenant, version.value) in prisma.keys && prisma.keys[(tenant, version.value)].active
                && forall v :: (tenant, v) in prisma.keys && prisma.keys[(tenant, v)].active ==> v <= version.value
      ensures version.Some? ==> LatestActive(prisma.keys, tenant, version.value)
      ensures version.None? ==> forall v :: (tenant, v) !in prisma.keys || !prisma.keys[(tenant, v)].active
      ensures version == LatestVersion(prisma.keys, tenant)
    {
      var rows := set k | k in prisma.keys && k.0 == tenant && prisma.keys[k].active;
      assert forall v :: (tenant, v) in prisma.keys && prisma.keys[(tenant, v)].active ==> (tenant, v) in rows;
      if rows == {} {
        return None;
      }
      LatestExists(rows);
      var row :| row in rows && forall l :: l in rows ==> l.1 <= row.1;
      var latest := row.1;
      assert LatestActive(prisma.keys, tenant, latest);
      assert forall v :: LatestActive(prisma.keys, tenant, v) ==> v == latest;
      return Some(latest);
    }

    method GetOrCreateDek(now: Time, tenant: TenantId, supply: Supply) returns (r: Result<DekUse, StoreError>)
      modifies prisma`keys, this`dekCache
      ensures (r, prisma.keys, dekCache) == UseDek(vault, old(prisma.keys), old(dekCache), now, tenant, supply)
      ensures r.Err? ==> prisma.keys == old(prisma.keys) && dekCache == old(dekCache)
      ensures r.Ok? ==> LatestActive(prisma.keys, tenant, r.value.version) && prisma.keys[(tenant, r.value.version)].id == r.value.keyId
      ensures (forall v :: (tenant, v) in old(prisma.keys) ==> !old(prisma.keys)[(tenant, v)].active) ==>
                if (tenant, 1) in old(prisma.keys) then r == Err(KeyExists)
                else
                  && r == Ok(DekUse(supply.dek, supply.keyId, 1))
                  && prisma.keys == old(prisma.keys)[(tenant, 1) := KeyRow(supply.keyId,
                                      EncryptDataKey(vault.cipher, vault.kek, supply.dek, supply.dekIv), true)]
      ensures (exists v :: (tenant, v) in old(prisma.keys) && old(prisma.keys)[(tenant, v)].active) ==> prisma.keys == old(prisma.keys)
      ensures dekCache == old(dekCache) || (r.Ok? && dekCache == old(dekCache)[tenant := CacheEntry(r.value.key, now + 300_000)])
      ensures r.Ok? && tenant in old(dekCache) && now < old(dekCache)[tenant].expiresAt && LatestVersion(old(prisma.keys), tenant).Some? ==>
                r.value.key == old(dekCache)[tenant].key && dekCache == old(dekCache)
      ensures r.Ok? && (tenant !in old(dekCache) || now >= old(dekCache)[tenant].expiresAt) ==>
                Matching(vault, prisma.keys, tenant, r.value) && tenant in dekCache && dekCache[tenant].expiresAt == now + 300_000
      ensures old(Valid()) && ':' !in supply.keyId ==> Valid() && r.Ok? && Matching(vault, prisma.keys, tenant, r.value)
      ensures r.Ok? ==> (Matching(vault, prisma.keys, tenant, r.value)
                         <==> CacheAgrees(vault, old(prisma.keys), old(dekCache), now, tenant))
    {
      assert !Unexpired(dekCache, tenant, now) ==> CacheAgrees(vault, prisma.keys, dekCache, now, tenant);
      hide DecryptDataKey, EncryptDataKey, LatestVersion, KeysSound, CacheSound, Matching, CacheAgrees;
      UseDekMatchesExactly(vault, prisma.keys, dekCache, now, tenant, supply);
      if Valid() && ':' !in supply.keyId {
        UseDekKeepsSound(vault, prisma.keys, dekCache, now, tenant, supply);
      }
      if Unexpired(dekCache, tenant, now) {
        var cached := FindActiveKey(tenant);
        if cached.Some? {
          return Ok(DekUse(dekCache[tenant].key, prisma.keys[(tenant, cached.value)].id, cached.value));
        }
      }
      var found := FindActiveKey(tenant);
      if found.None? {
        if (tenant, 1) in prisma.keys {
          return Err(KeyExists);
        }
        prisma.keys := prisma.keys[(tenant, 1) := NewKeyRow(vault, supply)];
        dekCache := dekCache[tenant := CacheEntry(supply.dek, now + DEK_CACHE_TTL)];
        return Ok(DekUse(supply.dek, supply.keyId, 1));
      }
      var row := prisma.keys[(tenant, found.value)];
      var dek := DecryptDataKey(vault.cipher, vault.kek, row.keyEncrypted);
      if dek.Err? {
        return Err(Crypto(dek.error));
      }
      dekCache := dekCache[tenant := CacheEntry(dek.value, now + DEK_CACHE_TTL)];
      return Ok(DekUse(dek.value, row.id, found.value));
    }

    /**
      * Over any key table: tokens stored read back if the cache agrees with the table and the key id is
      * colon-free. Over a table and a cache of this service's own making, that is always.
      */
    method StoreTokens(now: Time, account: AccountId, tenant: TenantId, tokens: TokenData, supply: Supply)
      returns (r: Result<(), StoreError>)
      modifies prisma, this`dekCache
      ensures var (use, keys, cache) := UseDek(vault, old(prisma.keys), old(dekCache), now, tenant, supply);
              && prisma.keys == keys && dekCache == cache
              && (if use.Err? then r == Err(use.error) && prisma.tokens == old(prisma.tokens)
                  else r == Ok(()) && prisma.tokens == old(prisma.tokens)[account :=
                         SealTokens(vault, tokens, use.value.key, use.value.keyId, use.value.version, supply)])
      ensures r.Ok? && CacheAgrees(vault, old(prisma.keys), old(dekCache), now, tenant)
              && ':' !in prisma.tokens[account].encryptionKeyId ==>
                OpenTokens(vault, prisma.keys, tenant, prisma.tokens[account]) == Ok(tokens)
      ensures old(Valid()) && ':' !in supply.keyId ==>
                Valid() && r.Ok? && OpenTokens(vault, prisma.keys, tenant, prisma.tokens[account]) == Ok(tokens)
    {
      hide DecryptDataKey, EncryptDataKey, KeysSound, CacheSound, CacheAgrees, UseDek, OpenTokens, EncryptToken, Matching;
      if Valid() && ':' !in supply.keyId {
        UseDekKeepsSound(vault, prisma.keys, dekCache, now, tenant, supply);
      }
      var use := GetOrCreateDek(now, tenant, supply);
      if use.Err? {
        return Err(use.error);
      }
      if Matching(vault, prisma.keys, tenant, use.value) && ':' !in use.value.keyId {
        SealedTokensOpen(vault, prisma.keys, tenant, use.value, tokens, supply);
      }
      prisma.tokens := prisma.tokens[account := SealTokens(vault, tokens, use.value.key, use.value.keyId, use.value.version, supply)];
      return Ok(());
    }

    method GetTokens(account: AccountId, tenant: TenantId) returns (tokens: Result<Option<TokenData>, StoreError>)
      ensures tokens ==
              if account !in prisma.tokens then Ok(None)
              else
                var read := OpenTokens(vault, prisma.keys, tenant, prisma.tokens[account]);
                if read.Ok? then Ok(Some(read.value)) else Err(read.error)
    {
      if account !in prisma.tokens {
        return Ok(None);
      }
      var row := prisma.tokens[account];
      var dek := GetDek(tenant, row.keyVersion);
      if dek.Err? {
        return Err(dek.error);
      }
      var access := DecryptToken(vault.cipher, row.accessTokenEnc, dek.value);
      if access.Err? {
        return Err(Crypto(access.error));
      }
      var refresh := DecryptToken(vault.cipher, row.refreshTokenEnc, dek.value);
      if refresh.Err? {
        return Err(Crypto(refresh.error));
      }
      return Ok(Some(TokenData(access.value.token, refresh.value.token, row.expiresAt)));
    }

    method GetDek(tenant: TenantId, version: int) returns (dek: Result<Key, StoreError>)
      ensures (tenant, version) !in prisma.keys ==> dek == Err(KeyNotFound)
      ensures (tenant, version) in prisma.keys ==>
                var key := DecryptDataKey(vault.cipher, vault.kek, prisma.keys[(tenant, version)].keyEncrypted);
                dek == if key.Ok? then Ok(key.value) else Err(Crypto(key.error))
    {
      if (tenant, version) !in prisma.keys {
        return Err(KeyNotFound);
      }
      var key := DecryptDataKey(vault.cipher, vault.kek, prisma.keys[(tenant, version)].keyEncrypted);
      return if key.Ok? then Ok(key.value) else Err(Crypto(key.error));
    }
  }
}
