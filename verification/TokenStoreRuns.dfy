/** Many processes, each with its own key cache, storing tokens over one key table and one token table. */
module TokenStoreRuns {
  import opened Wrappers
  import opened Base64
  import opened Encryption
  import opened TokenStore

  type ProcessId = string
  type CallId = string

  /** Where a `storeTokens` call stands: the statement it runs when its pending request answers. */
  datatype Stage =
    | QueryBehindCache(key: Key)                              // the cache hit, asking for the key row
    | QueryActive                                             // asking for the active key row
    | Create(supply: Supply)                                  // inserting a first key
    | Remember(key: Key, keyId: string, version: int)         // caching the key it now holds
    | Upsert(key: Key, keyId: string, version: int)           // writing the token row
    | Stored
    | Rejected                                                // an exception reached the caller

  datatype Call = Call(process: ProcessId, account: AccountId, tenant: TenantId, tokens: TokenData, stage: Stage)

  /** `latest` remembers, for each account, whose tokens were stored last. */
  datatype State = State(
    now: Time,
    keys: KeyTable,
    rows: TokenTable,
    caches: map<ProcessId, Cache>,
    calls: map<CallId, Call>,
    latest: map<AccountId, (TenantId, TokenData)>)

  datatype Action =
    | Begin(id: CallId, process: ProcessId, account: AccountId, tenant: TenantId, tokens: TokenData)
    | Advance(id: CallId, supply: Supply)
    | Restart(process: ProcessId)
    | Tick(dt: nat)

  function CacheOf(s: State, p: ProcessId): Cache {
    if p in s.caches then s.caches[p] else map[]
  }

  /** The synchronous head of getOrCreateDek: look into the cache, then ask the database. */
  function FirstStage(s: State, p: ProcessId, tenant: TenantId): Stage {
    if Unexpired(CacheOf(s, p), tenant, s.now) then QueryBehindCache(CacheOf(s, p)[tenant].key) else QueryActive
  }

  /** The stage after the pending request of a call is answered in state `s`. */
  ghost function NextStage(vault: Vault, s: State, c: Call, supply: Supply): Stage {
    var found := LatestVersion(s.keys, c.tenant);
    match c.stage
    case QueryBehindCache(key) =>
      if found.Some? then Upsert(key, s.keys[(c.tenant, found.value)].id, found.value) else QueryActive
    case QueryActive =>
      if found.None? then Create(supply)
      else
        var row := s.keys[(c.tenant, found.value)];
        var dek := DecryptDataKey(vault.cipher, vault.kek, row.keyEncrypted);
        if dek.Ok? then Remember(dek.value, row.id, found.value) else Rejected
    case Create(chosen) => if (c.tenant, 1) in s.keys then Rejected else Remember(chosen.dek, chosen.keyId, 1)
    case Remember(key, keyId, version) => Upsert(key, keyId, version)
    case Upsert(_, _, _) => Stored
    case Stored => Stored
    case Rejected => Rejected
  }

  ghost predicate Enabled(s: State, a: Action) {
    match a
    case Begin(id, _, _, _, _) => id !in s.calls
    case Advance(id, supply) => id in s.calls && ':' !in supply.keyId
    case _ => true
  }

  ghost function Step(vault: Vault, s: State, a: Action): State
    requires Enabled(s, a)
  {
    match a
    case Begin(id, p, account, tenant, tokens) =>
      s.(calls := s.calls[id := Call(p, account, tenant, tokens, FirstStage(s, p, tenant))])
    case Restart(p) =>
      s.(caches := s.caches[p := map[]],
         calls := map id | id in s.calls && s.calls[id].process != p :: s.calls[id])
    case Tick(dt) => s.(now := s.now + dt)
    case Advance(id, supply) =>
      var c := s.calls[id];
      var t := s.(calls := s.calls[id := c.(stage := NextStage(vault, s, c, supply))]);
      match c.stage
      case Create(chosen) =>
        if (c.tenant, 1) in s.keys then t else t.(keys := s.keys[(c.tenant, 1) := NewKeyRow(vault, chosen)])
      case Remember(key, _, _) =>
        var entry := CacheEntry(key, s.now + DEK_CACHE_TTL);
        t.(caches := s.caches[c.process := CacheOf(s, c.process)[c.tenant := entry]])
      case Upsert(key, keyId, version) =>
        t.(rows := s.rows[c.account := SealTokens(vault, c.tokens, key, keyId, version, supply)],
           latest := s.latest[c.account := (c.tenant, c.tokens)])
      case _ => t
  }

  /** A restarted process has lost its cache and its calls, and nobody else anything. */
  lemma RestartForgets(vault: Vault, s: State, p: ProcessId)
    ensures var t := Step(vault, s, Restart(p));
            && CacheOf(t, p) == map[] && (forall q :: q != p ==> CacheOf(t, q) == CacheOf(s, q))
            && (forall id :: id in t.calls <==> id in s.calls && s.calls[id].process != p)
            && t.keys == s.keys && t.rows == s.rows && t.latest == s.latest
  {
  }

  ghost predicate Initial(s: State) {
    s.keys == map[] && s.rows == map[] && s.caches == map[] && s.calls == map[] && s.latest == map[]
  }

  datatype Run = Run(states: seq<State>, acts: seq<Action>)

  ghost predicate IsRun(vault: Vault, r: Run) {
    && |r.states| == |r.acts| + 1
    && Initial(r.states[0])
    && forall i :: 0 <= i < |r.acts| ==>
         Enabled(r.states[i], r.acts[i]) && r.states[i + 1] == Step(vault, r.states[i], r.acts[i])
  }

  // ---------------------------------------------------------------- what every step keeps

  /** A call holds no key but its tenant's, under the identity of the tenant's key row. */
  ghost predicate StageSound(vault: Vault, keys: KeyTable, c: Call) {
    match c.stage
    case QueryBehindCache(key) => IsTenantKey(vault, keys, c.tenant, key)
    case Create(chosen) => ':' !in chosen.keyId
    case Remember(key, keyId, version) =>
      IsTenantKey(vault, keys, c.tenant, key) && version == 1 && keyId == keys[(c.tenant, 1)].id
    case Upsert(key, keyId, version) =>
      IsTenantKey(vault, keys, c.tenant, key) && version == 1 && keyId == keys[(c.tenant, 1)].id
    case _ => true
  }

  ghost predicate Sound(vault: Vault, s: State) {
    && KeysSound(vault, s.keys)
    && (forall p :: p in s.caches ==> CacheSound(vault, s.keys, s.caches[p]))
    && (forall id :: id in s.calls ==> StageSound(vault, s.keys, s.calls[id]))
    && s.rows.Keys == s.latest.Keys
    && (forall a :: a in s.rows ==> OpenTokens(vault, s.keys, s.latest[a].0, s.rows[a]) == Ok(s.latest[a].1))
  }

  /** A first key for a tenant disturbs nothing that was sound before. */
  lemma CreateKeepsSound(vault: Vault, s: State, tenant: TenantId, supply: Supply)
    requires Sound(vault, s) && (tenant, 1) !in s.keys && ':' !in supply.keyId
    ensures var t := s.(keys := s.keys[(tenant, 1) := NewKeyRow(vault, supply)]);
            Sound(vault, t) && IsTenantKey(vault, t.keys, tenant, supply.dek)
  {
    hide DecryptDataKey, DecryptToken;
    var keys := s.keys[(tenant, 1) := NewKeyRow(vault, supply)];
    NewKeyIsSound(vault, s.keys, tenant, supply);
    forall t, k | IsTenantKey(vault, s.keys, t, k) ensures IsTenantKey(vault, keys, t, k) {
    }
    assert forall k :: k in s.keys ==> keys[k] == s.keys[k];
    forall a | a in s.rows
      ensures OpenTokens(vault, keys, s.latest[a].0, s.rows[a]) == OpenTokens(vault, s.keys, s.latest[a].0, s.rows[a])
    {
      assert (s.latest[a].0, s.rows[a].keyVersion) in s.keys;
    }
    forall id | id in s.calls ensures StageSound(vault, keys, s.calls[id]) {
      assert StageSound(vault, s.keys, s.calls[id]);
    }
  }

  lemma CreateAdvanceKeepsSound(vault: Vault, s: State, id: CallId, supply: Supply)
    requires Sound(vault, s) && id in s.calls && ':' !in supply.keyId
    requires s.calls[id].stage.Create? && (s.calls[id].tenant, 1) !in s.keys
    ensures Sound(vault, Step(vault, s, Advance(id, supply)))
    ensures forall k :: k in s.keys ==>
              k in Step(vault, s, Advance(id, supply)).keys && Step(vault, s, Advance(id, supply)).keys[k] == s.keys[k]
  {
    hide OpenTokens, KeysSound, IsTenantKey, CacheSound;
    var c := s.calls[id];
    assert StageSound(vault, s.keys, c);
    CreateKeepsSound(vault, s, c.tenant, c.stage.supply);
    var t := Step(vault, s, Advance(id, supply));
    assert StageSound(vault, t.keys, t.calls[id]);
  }

  lemma UpsertKeepsSound(vault: Vault, s: State, id: CallId, supply: Supply)
    requires Sound(vault, s) && id in s.calls && s.calls[id].stage.Upsert? && ':' !in supply.keyId
    ensures Sound(vault, Step(vault, s, Advance(id, supply)))
    ensures Step(vault, s, Advance(id, supply)).keys == s.keys
  {
    hide OpenTokens, SealTokens, DecryptDataKey;
    var c := s.calls[id];
    assert StageSound(vault, s.keys, c);
    SealedTokensOpen(vault, s.keys, c.tenant, DekUse(c.stage.key, c.stage.keyId, c.stage.version), c.tokens, supply);
  }

  /** A call that does not create a key moves on holding its tenant's key, if any. */
  lemma NextStageIsSound(vault: Vault, s: State, c: Call, supply: Supply)
    requires KeysSound(vault, s.keys) && StageSound(vault, s.keys, c) && ':' !in supply.keyId
    requires c.stage.Create? ==> (c.tenant, 1) in s.keys
    ensures StageSound(vault, s.keys, c.(stage := NextStage(vault, s, c, supply)))
  {
    hide DecryptDataKey, LatestVersion;
    LatestVersionIsOne(vault, s.keys, c.tenant);
  }

  /** Caching the key a call holds, or moving on with an answer from the key table. */
  lemma QuietAdvanceKeepsSound(vault: Vault, s: State, id: CallId, supply: Supply)
    requires Sound(vault, s) && id in s.calls && ':' !in supply.keyId && !s.calls[id].stage.Upsert?
    requires s.calls[id].stage.Create? ==> (s.calls[id].tenant, 1) in s.keys
    ensures Sound(vault, Step(vault, s, Advance(id, supply)))
    ensures Step(vault, s, Advance(id, supply)).keys == s.keys
  {
    hide OpenTokens, SealTokens, DecryptDataKey, EncryptDataKey, NextStage, KeysSound, IsTenantKey;
    var c := s.calls[id];
    assert StageSound(vault, s.keys, c);
    NextStageIsSound(vault, s, c, supply);
    var t := Step(vault, s, Advance(id, supply));
    forall i | i in t.calls ensures StageSound(vault, t.keys, t.calls[i]) {
      if i != id {
        assert t.calls[i] == s.calls[i];
      }
    }
    forall p | p in t.caches ensures CacheSound(vault, t.keys, t.caches[p]) {
      if p in s.caches {
        assert CacheSound(vault, s.keys, s.caches[p]);
      }
    }
  }

  /** Time, restarts and new calls. */
  lemma OtherStepsKeepSound(vault: Vault, s: State, a: Action)
    requires Enabled(s, a) && Sound(vault, s) && !a.Advance?
    ensures Sound(vault, Step(vault, s, a)) && Step(vault, s, a).keys == s.keys
  {
    hide OpenTokens, KeysSound, IsTenantKey, NextStage;
    var t := Step(vault, s, a);
    forall id | id in t.calls ensures StageSound(vault, t.keys, t.calls[id]) {
      if id in s.calls {
        assert StageSound(vault, s.keys, s.calls[id]);
      }
    }
  }

  lemma StepKeepsSound(vault: Vault, s: State, a: Action)
    requires Enabled(s, a) && Sound(vault, s)
    ensures Sound(vault, Step(vault, s, a))
    ensures forall k :: k in s.keys ==> k in Step(vault, s, a).keys && Step(vault, s, a).keys[k] == s.keys[k]
  {
    hide Sound, Step;
    if !a.Advance? {
      OtherStepsKeepSound(vault, s, a);
    } else if s.calls[a.id].stage.Upsert? {
      UpsertKeepsSound(vault, s, a.id, a.supply);
    } else if s.calls[a.id].stage.Create? && (s.calls[a.id].tenant, 1) !in s.keys {
      CreateAdvanceKeepsSound(vault, s, a.id, a.supply);
    } else {
      QuietAdvanceKeepsSound(vault, s, a.id, a.supply);
    }
  }

  lemma {:induction false} RunSound(vault: Vault, r: Run, n: nat)
    requires IsRun(vault, r) && n <= |r.acts|
    ensures Sound(vault, r.states[n])
  {
    hide Step, Enabled;
    if n > 0 {
      RunSound(vault, r, n - 1);
      StepKeepsSound(vault, r.states[n - 1], r.acts[n - 1]);
    }
  }

  /** Every cached key, in every process of every run, is the decrypted active key of its tenant. */
  lemma CachesAgreeWithKeyTable(vault: Vault, r: Run, n: nat, p: ProcessId, tenant: TenantId)
    requires IsRun(vault, r) && n <= |r.acts|
    requires tenant in CacheOf(r.states[n], p)
    ensures LatestActive(r.states[n].keys, tenant, 1)
    ensures DecryptDataKey(vault.cipher, vault.kek, r.states[n].keys[(tenant, 1)].keyEncrypted)
            == Ok(CacheOf(r.states[n], p)[tenant].key)
  {
    RunSound(vault, r, n);
  }

  lemma {:induction false} KeysNeverChange(vault: Vault, r: Run, i: nat, n: nat)
    requires IsRun(vault, r) && i <= n <= |r.acts|
    ensures forall k :: k in r.states[i].keys ==> k in r.states[n].keys && r.states[n].keys[k] == r.states[i].keys[k]
  {
    hide Step, Enabled, Sound;
    if i < n {
      KeysNeverChange(vault, r, i, n - 1);
      RunSound(vault, r, n - 1);
      StepKeepsSound(vault, r.states[n - 1], r.acts[n - 1]);
    }
  }

  /**
    * getTokens reads the token row at one moment and the key row at any later one; what it returns are the
    * tokens stored last before the first read, whoever stored them and whoever raced to create the key.
    */
  lemma StoredTokensReadBack(vault: Vault, r: Run, i: nat, n: nat, account: AccountId)
    requires IsRun(vault, r) && i <= n <= |r.acts|
    ensures account in r.states[i].rows <==> account in r.states[i].latest
    ensures account in r.states[i].rows ==>
              OpenTokens(vault, r.states[n].keys, r.states[i].latest[account].0, r.states[i].rows[account])
              == Ok(r.states[i].latest[account].1)
  {
    hide Step, Enabled, Initial, DecryptDataKey, DecryptToken, KeysSound, CacheSound, StageSound;
    RunSound(vault, r, i);
    KeysNeverChange(vault, r, i, n);
  }

  /** Of two processes creating a tenant's first key, the second is rejected and leaves no trace. */
  lemma SecondCreatorLeavesNoTrace(vault: Vault, r: Run, i: nat, n: nat, first: CallId, second: CallId)
    requires IsRun(vault, r) && i < n < |r.acts|
    requires r.acts[i].Advance? && r.acts[i].id == first && r.states[i].calls[first].stage.Create?
    requires r.acts[n].Advance? && r.acts[n].id == second && r.states[n].calls[second].stage.Create?
    requires r.states[i].calls[first].tenant == r.states[n].calls[second].tenant
    ensures r.states[n + 1].calls[second].stage == Rejected
    ensures r.states[n + 1].keys == r.states[n].keys
    ensures r.states[n + 1].caches == r.states[n].caches
    ensures r.states[n + 1].rows == r.states[n].rows
  {
    var tenant := r.states[i].calls[first].tenant;
    assert r.states[i + 1] == Step(vault, r.states[i], r.acts[i]);
    assert (tenant, 1) in r.states[i + 1].keys;
    KeysNeverChange(vault, r, i + 1, n);
  }

  // ---------------------------------------------------------------- where the promise ends

  /** Nothing sealed opens under another key. */
  ghost predicate OpensOnlyItsOwn(c: Cipher) {
    forall k: Key, l: Key, iv: Bytes, plaintext: Bytes :: k != l ==> c.open(l, iv, c.seal(k, iv, plaintext)) == None
  }

  lemma OtherKeyFails(c: Aead, token: Token, dek: Key, other: Key, keyId: string, version: int, iv: Token)
    requires OpensOnlyItsOwn(c) && ':' !in keyId
    ensures DecryptToken(c, EncryptToken(c, token, dek, keyId, version, iv), other) ==
            if other == dek then Ok(DecryptedToken(token, Some(version), keyId)) else Err(AuthenticationFailed)
  {
    TokenFields(c, token, dek, keyId, version, iv);
    TokenRoundTrip(c, token, dek, keyId, version, iv);
  }

  /** Tokens sealed with one key and labelled with a row read back exactly if it is the row's key. */
  lemma MislabelledTokensOpenExactly(vault: Vault, keys: KeyTable, tenant: TenantId, key: Key, version: int, current: Key,
                                     tokens: TokenData, supply: Supply)
    requires OpensOnlyItsOwn(vault.cipher) && (tenant, version) in keys && ':' !in keys[(tenant, version)].id
    requires DecryptDataKey(vault.cipher, vault.kek, keys[(tenant, version)].keyEncrypted) == Ok(current)
    ensures OpenTokens(vault, keys, tenant, SealTokens(vault, tokens, key, keys[(tenant, version)].id, version, supply))
            == if key == current then Ok(tokens) else Err(Crypto(AuthenticationFailed))
  {
    hide DecryptToken, EncryptToken, DecryptDataKey;
    var keyId := keys[(tenant, version)].id;
    OtherKeyFails(vault.cipher, tokens.accessToken, key, current, keyId, version, supply.accessIv);
    OtherKeyFails(vault.cipher, tokens.refreshToken, key, current, keyId, version, supply.refreshIv);
  }

  /**
    * In any state, a call that found its key in the cache labels it with the latest active row, whatever its
    * version: what it stores can be read exactly if that row holds the cached key.
    */
  lemma CachedKeyIsRelabelled(vault: Vault, s: State, id: CallId, supply: Supply, version: int, current: Key)
    requires OpensOnlyItsOwn(vault.cipher) && ':' !in supply.keyId
    requires id in s.calls && s.calls[id].stage.QueryBehindCache?
    requires LatestActive(s.keys, s.calls[id].tenant, version) && ':' !in s.keys[(s.calls[id].tenant, version)].id
    requires DecryptDataKey(vault.cipher, vault.kek, s.keys[(s.calls[id].tenant, version)].keyEncrypted) == Ok(current)
    ensures var c, t := s.calls[id], Step(vault, Step(vault, s, Advance(id, supply)), Advance(id, supply));
            && c.account in t.rows && t.rows[c.account].keyVersion == version
            && OpenTokens(vault, t.keys, c.tenant, t.rows[c.account])
               == if c.stage.key == current then Ok(c.tokens) else Err(Crypto(AuthenticationFailed))
  {
    hide OpenTokens, EncryptToken, DecryptDataKey;
    var c := s.calls[id];
    assert forall v :: LatestActive(s.keys, c.tenant, v) ==> v == version;
    assert LatestVersion(s.keys, c.tenant) == Some(version);
    var mid, keyId := Step(vault, s, Advance(id, supply)), s.keys[(c.tenant, version)].id;
    assert mid.calls[id].stage == Upsert(c.stage.key, keyId, version);
    MislabelledTokensOpenExactly(vault, s.keys, c.tenant, c.stage.key, version, current, c.tokens, supply);
  }

  /** A state with a key row from elsewhere, after a call of `p` has looked into its cache. */
  ghost function AfterForeignKey(s: State, row: KeyRow, version: int, id: CallId, p: ProcessId, account: AccountId,
                                 tenant: TenantId, tokens: TokenData): State
  {
    var f := s.(keys := s.keys[(tenant, version) := row]);
    f.(calls := f.calls[id := Call(p, account, tenant, tokens, FirstStage(f, p, tenant))])
  }

  /**
    * In every run: once another program adds an active key row of a later version, a process that has the
    * tenant's key cached stores tokens that can be read exactly if the new row holds the very same key.
    */
  lemma ForeignKeyVersionMislabelsTokens(vault: Vault, r: Run, n: nat, p: ProcessId, tenant: TenantId, version: int, row: KeyRow,
                                         other: Key, id: CallId, account: AccountId, tokens: TokenData, supply: Supply)
    requires IsRun(vault, r) && n <= |r.acts| && OpensOnlyItsOwn(vault.cipher)
    requires Unexpired(CacheOf(r.states[n], p), tenant, r.states[n].now) && id !in r.states[n].calls
    requires version > 1 && row.active && ':' !in row.id && ':' !in supply.keyId
    requires DecryptDataKey(vault.cipher, vault.kek, row.keyEncrypted) == Ok(other)
    ensures var f := AfterForeignKey(r.states[n], row, version, id, p, account, tenant, tokens);
            var t := Step(vault, Step(vault, f, Advance(id, supply)), Advance(id, supply));
            && Enabled(Step(vault, f, Advance(id, supply)), Advance(id, supply))
            && account in t.rows
            && OpenTokens(vault, t.keys, tenant, t.rows[account])
               == if other == CacheOf(r.states[n], p)[tenant].key then Ok(tokens) else Err(Crypto(AuthenticationFailed))
  {
    hide OpenTokens, DecryptDataKey, EncryptToken;
    RunSound(vault, r, n);
    var f := AfterForeignKey(r.states[n], row, version, id, p, account, tenant, tokens);
    assert LatestActive(f.keys, tenant, version);
    CachedKeyIsRelabelled(vault, f, id, supply, version, other);
  }

  function Extended(r: Run, a: Action, s: State): Run {
    Run(r.states + [s], r.acts + [a])
  }

  lemma ExtendRun(vault: Vault, r: Run, a: Action, s: State)
    requires IsRun(vault, r) && Enabled(r.states[|r.acts|], a) && s == Step(vault, r.states[|r.acts|], a)
    ensures var q := Extended(r, a, s);
            IsRun(vault, q) && |q.acts| == |r.acts| + 1 && q.states[|q.acts|] == s
  {
    hide Step, Enabled, Initial;
  }

  /** Such a cache is soon reached: the first call for a tenant creates a key and keeps it. */
  lemma KeyGetsCached(vault: Vault, p: ProcessId, tenant: TenantId, account: AccountId, tokens: TokenData, supply: Supply)
    returns (r: Run)
    requires ':' !in supply.keyId
    ensures IsRun(vault, r) && |r.acts| == 4 && |r.states| == 5
    ensures Unexpired(CacheOf(r.states[4], p), tenant, r.states[4].now)
    ensures CacheOf(r.states[4], p)[tenant].key == supply.dek && r.states[4].calls.Keys == {"c"}
  {
    hide NewKeyRow;
    var c := Call(p, account, tenant, tokens, QueryActive);
    var s0 := State(0, map[], map[], map[], map[], map[]);
    var s1 := s0.(calls := map["c" := c]);
    var s2 := s0.(calls := map["c" := c.(stage := Create(supply))]);
    var keys := map[(tenant, 1) := NewKeyRow(vault, supply)];
    var s3 := s0.(keys := keys, calls := map["c" := c.(stage := Remember(supply.dek, supply.keyId, 1))]);
    r := Run([s0], []);
    hide IsRun;
    assert IsRun(vault, r) by {
      StartsRun(vault, s0);
    }
    ExtendRun(vault, r, Begin("c", p, account, tenant, tokens), s1);
    r := Extended(r, Begin("c", p, account, tenant, tokens), s1);
    assert s2 == Step(vault, s1, Advance("c", supply));
    ExtendRun(vault, r, Advance("c", supply), s2);
    r := Extended(r, Advance("c", supply), s2);
    assert s3 == Step(vault, s2, Advance("c", supply));
    ExtendRun(vault, r, Advance("c", supply), s3);
    r := Extended(r, Advance("c", supply), s3);
    var s4 := Step(vault, s3, Advance("c", supply));
    ExtendRun(vault, r, Advance("c", supply), s4);
    r := Extended(r, Advance("c", supply), s4);
  }

  lemma StartsRun(vault: Vault, s: State)
    requires Initial(s)
    ensures IsRun(vault, Run([s], []))
  {
  }

  /** A cipher that refuses every key but the one it sealed with. */
  function StrictCipher(): (c: Cipher)
    ensures OpensWhatItSeals(c) && OpensOnlyItsOwn(c)
  {
    Cipher((k: Key, iv, p) => Sealed(k, p), (k: Key, iv, s: Sealed) => if s.authTag == k then Some(s.ciphertext) else None)
  }

  /** And then the tokens of the next call are lost: a run, a foreign key row, and a row that cannot be read. */
  lemma CachedKeyLosesTokens() returns (vault: Vault, r: Run, f: State, t: State)
    ensures IsRun(vault, r) && |r.acts| == 4 && |r.states| == 5
    ensures exists row, other, iv, tokens ::
              && row == KeyRow("k2", EncryptDataKey(vault.cipher, vault.kek, other, iv), true)
              && f == AfterForeignKey(r.states[4], row, 2, "d", "p", "acc", "t", tokens)
    ensures exists supply :: Enabled(f, Advance("d", supply)) && t == Step(vault, Step(vault, f, Advance("d", supply)), Advance("d", supply))
    ensures "acc" in t.rows && OpenTokens(vault, t.keys, "t", t.rows["acc"]) == Err(Crypto(AuthenticationFailed))
  {
    hide IsRun, Step, OpenTokens, EncryptDataKey, DecryptDataKey;
    var dek: Key, other: Key := seq(KEY_LENGTH, _ => 0), seq(KEY_LENGTH, _ => 1);
    assert dek[0] != other[0];
    vault := Vault(StrictCipher(), dek);
    var supply, tokens := Supply(dek, "k1", [], [], []), TokenData([], [], 0);
    r := KeyGetsCached(vault, "p", "t", "acc", tokens, supply);
    var row := KeyRow("k2", EncryptDataKey(vault.cipher, vault.kek, other, []), true);
    DataKeyRoundTrip(vault.cipher, vault.kek, other, []);
    f := AfterForeignKey(r.states[4], row, 2, "d", "p", "acc", "t", tokens);
    ForeignKeyVersionMislabelsTokens(vault, r, 4, "p", "t", 2, row, other, "d", "acc", tokens, supply);
    t := Step(vault, Step(vault, f, Advance("d", supply)), Advance("d", supply));
  }
}
