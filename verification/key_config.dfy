/**
 Key resolution and envelope encryption with fallback decryption
 (`get_encryption_key`, `encrypt_str` and `decrypt_str` of config.py).
 */
module KeyConfig {
  import opened Types
  import opened Text
  import opened Fernet
  import opened KeyRegistry

  /**
   The two process-environment variables the resolver reads:
   ENCRYPTION_KEY_ID (a text naming the active registry row) and
   ENCRYPTION_KEY (key text kept outside the registry).
   */
  datatype ProcessEnv = ProcessEnv(keyId: Option<string>, key: Option<string>)

  /** Where a resolved key came from, in priority order. */
  datatype KeySource =
    | Explicit(id: int)  // the key id the caller passed
    | ActiveId(id: int)  // the registry row ENCRYPTION_KEY_ID names
    | Newest(id: int)    // the registry row with the highest KEY_ID
    | EnvKey             // ENCRYPTION_KEY itself

  datatype Resolved = Resolved(key: string, source: KeySource)

  /** Priority of a source: lower is consulted first. */
  function Rank(s: KeySource): nat {
    match s
    case Explicit(_) => 0
    case ActiveId(_) => 1
    case Newest(_) => 2
    case EnvKey => 3
  }

  /** Python truthiness of an integer key id: `None` and `0` are falsy. */
  predicate TruthyId(keyId: Option<int>) {
    keyId.Some? && keyId.value != 0
  }

  /** The registry id ENCRYPTION_KEY_ID denotes, if it is set and numeric. */
  function ActiveIdOf(env: ProcessEnv): Option<int> {
    if Truthy(env.keyId) && ParseNat(env.keyId.value).Some? then Some(ParseNat(env.keyId.value).value) else None
  }

  /**
   The key that source `s` would supply on its own, judged independently
   of every other source. Registry sources need the registry reachable and
   a row with a truthy key; the newest row is the one with the highest id.
   */
  function Offer(reg: Registry, env: ProcessEnv, keyId: Option<int>, s: KeySource): Option<string> {
    match s
    case Explicit(id) =>
      if reg.queryable && TruthyId(keyId) && keyId.value == id then KeyFor(reg, id) else None
    case ActiveId(id) =>
      if reg.queryable && ActiveIdOf(env) == Some(id) then KeyFor(reg, id) else None
    case Newest(id) =>
      if reg.queryable && NewestId(reg) == Some(id) then KeyFor(reg, id) else None
    case EnvKey =>
      if Truthy(env.key) then env.key else None
  }

  /**
   `get_encryption_key(key_id)`: the registry row of the explicit id, else
   the row ENCRYPTION_KEY_ID names, else the newest row, else
   ENCRYPTION_KEY. A registry error, a missing row or a falsy key falls
   through to the next step; only an empty chain raises.
   */
  function ResolveKey(reg: Registry, env: ProcessEnv, keyId: Option<int>): (r: Result<Resolved, Error>)
    ensures r.Success? ==> Offer(reg, env, keyId, r.value.source) == Some(r.value.key) && r.value.key != ""
    ensures r.Success? ==> forall s :: Rank(s) < Rank(r.value.source) ==> Offer(reg, env, keyId, s).None?
    ensures r.Failure? <==> forall s :: Offer(reg, env, keyId, s).None?
    ensures r.Failure? ==> r.error == MissingKey
  {
    var fromRegistry :=
      if !reg.queryable then None
      else if TruthyId(keyId) && KeyFor(reg, keyId.value).Some? then
        Some(Resolved(KeyFor(reg, keyId.value).value, Explicit(keyId.value)))
      else if ActiveIdOf(env).Some? && KeyFor(reg, ActiveIdOf(env).value).Some? then
        Some(Resolved(KeyFor(reg, ActiveIdOf(env).value).value, ActiveId(ActiveIdOf(env).value)))
      else if NewestId(reg).Some? && KeyFor(reg, NewestId(reg).value).Some? then
        Some(Resolved(KeyFor(reg, NewestId(reg).value).value, Newest(NewestId(reg).value)))
      else None;
    if fromRegistry.Some? then Success(fromRegistry.value)
    else if Truthy(env.key) then Success(Resolved(env.key.value, EnvKey))
    else Failure(MissingKey)
  }

  /**
   `encrypt_str(plain)`: encrypts under the key resolved without an
   explicit id. The resolver's error and the cipher's rejection of the key
   text both escape.
   */
  function EncryptStr(reg: Registry, env: ProcessEnv, plain: string, n: Nonce): (r: Result<string, Error>)
    ensures ResolveKey(reg, env, None).Failure? ==> r == Failure(MissingKey)
    ensures ResolveKey(reg, env, None).Success? ==>
      (r.Success? <==> ValidKey(ResolveKey(reg, env, None).value.key))
    ensures r.Failure? && ResolveKey(reg, env, None).Success? ==> r.error == InvalidKey
    ensures r.Success? ==> Decrypt(ResolveKey(reg, env, None).value.key, r.value) == Some(plain)
    ensures r.Success? ==> r.value != plain
  {
    var resolved :- ResolveKey(reg, env, None);
    if ValidKey(resolved.key) then
      DecryptEncrypt(resolved.key, plain, n);
      TokenIsNotPlaintext(resolved.key, Encrypt(resolved.key, plain, n));
      Success(Encrypt(resolved.key, plain, n))
    else Failure(InvalidKey)
  }

  /** Index of the first key that authenticates `c`. */
  function FirstAuthenticating(keys: seq<string>, c: string): (r: Option<nat>)
    ensures r.Some? ==> r.value < |keys| && Decrypt(keys[r.value], c).Some?
    ensures r.Some? ==> forall j :: 0 <= j < r.value ==> Decrypt(keys[j], c).None?
    ensures r.None? ==> forall j :: 0 <= j < |keys| ==> Decrypt(keys[j], c).None?
  {
    if |keys| == 0 then None
    else if Decrypt(keys[0], c).Some? then Some(0)
    else
      assert forall j :: 1 <= j < |keys| ==> keys[j] == keys[1..][j - 1];
      match FirstAuthenticating(keys[1..], c)
      case Some(i) => Some(i + 1)
      case None => None
  }

  /** Step 1 of `decrypt_str`: the plaintext under the resolved key, if it authenticates. */
  function FirstAttempt(reg: Registry, env: ProcessEnv, c: string, keyId: Option<int>): Option<string> {
    var resolved := ResolveKey(reg, env, keyId);
    if resolved.Success? then Decrypt(resolved.value.key, c) else None
  }

  /** Some registry row authenticates `c`, and no row with a higher KEY_ID does. */
  ghost predicate NewestAuthenticator(reg: Registry, c: string, id: int, plain: string) {
    && id in reg.keys
    && Decrypt(reg.keys[id], c) == Some(plain)
    && forall newer :: newer in reg.keys && newer > id ==> Decrypt(reg.keys[newer], c).None?
  }

  lemma FoundIsNewest(reg: Registry, c: string, i: nat)
    requires FirstAuthenticating(NewestFirstKeys(reg), c) == Some(i)
    ensures NewestAuthenticator(reg, c, NewestFirstIds(reg)[i], Decrypt(NewestFirstKeys(reg)[i], c).value)
  {
    var ids := NewestFirstIds(reg);
    var keys := NewestFirstKeys(reg);
    assert i < |keys| && keys[i] == reg.keys[ids[i]];
    forall newer | newer in reg.keys && newer > ids[i]
      ensures Decrypt(reg.keys[newer], c).None?
    {
      var j :| 0 <= j < |ids| && ids[j] == newer;
      DescendingOrder(ids, i, j);
      assert keys[j] == reg.keys[newer];
    }
  }

  lemma NotFoundMeansNone(reg: Registry, c: string)
    requires FirstAuthenticating(NewestFirstKeys(reg), c).None?
    ensures forall id :: id in reg.keys ==> Decrypt(reg.keys[id], c).None?
  {
    var ids := NewestFirstIds(reg);
    var keys := NewestFirstKeys(reg);
    forall id | id in reg.keys
      ensures Decrypt(reg.keys[id], c).None?
    {
      var j :| 0 <= j < |ids| && ids[j] == id;
      assert keys[j] == reg.keys[id];
    }
  }

  /**
   The handler of `decrypt_str`: every registry key from the highest KEY_ID
   down, the first that authenticates winning. A failing registry query
   escapes unconverted.
   */
  function Fallback(reg: Registry, c: string): (r: Result<string, Error>)
    ensures r == Failure(RegistryUnavailable) <==> !reg.queryable
    ensures r == Failure(Undecryptable) <==>
      reg.queryable && forall id :: id in reg.keys ==> Decrypt(reg.keys[id], c).None?
    ensures r.Failure? ==> r.error == Undecryptable || r.error == RegistryUnavailable
    ensures r.Success? ==> exists id :: NewestAuthenticator(reg, c, id, r.value)
  {
    if !reg.queryable then Failure(RegistryUnavailable)
    else
      match FirstAuthenticating(NewestFirstKeys(reg), c)
      case Some(i) =>
        FoundIsNewest(reg, c, i);
        Success(Decrypt(NewestFirstKeys(reg)[i], c).value)
      case None =>
        NotFoundMeansNone(reg, c);
        Failure(Undecryptable)
  }

  /**
   `decrypt_str(cipher, key_id)`: the resolved key first; on any failure,
   including a resolver error, the registry fallback. ENCRYPTION_KEY is not
   retried by the fallback.
   */
  function DecryptStr(reg: Registry, env: ProcessEnv, c: string, keyId: Option<int>): (r: Result<string, Error>)
    ensures FirstAttempt(reg, env, c, keyId).Some? ==> r == Success(FirstAttempt(reg, env, c, keyId).value)
    ensures r.Failure? ==> r.error == Undecryptable || r.error == RegistryUnavailable
    ensures r == Failure(RegistryUnavailable) <==> FirstAttempt(reg, env, c, keyId).None? && !reg.queryable
    ensures r == Failure(Undecryptable) <==>
      && FirstAttempt(reg, env, c, keyId).None?
      && reg.queryable
      && forall id :: id in reg.keys ==> Decrypt(reg.keys[id], c).None?
    ensures r.Success? && FirstAttempt(reg, env, c, keyId).None? ==>
      exists id :: NewestAuthenticator(reg, c, id, r.value)
  {
    var first := FirstAttempt(reg, env, c, keyId);
    if first.Some? then Success(first.value) else Fallback(reg, c)
  }

  /** Whatever `decrypt_str` returns differs from the text it was given. */
  lemma DecryptStrChanges(reg: Registry, env: ProcessEnv, c: string, keyId: Option<int>)
    requires DecryptStr(reg, env, c, keyId).Success?
    ensures DecryptStr(reg, env, c, keyId).value != c
  {
    var first := FirstAttempt(reg, env, c, keyId);
    if first.Some? {
      TokenIsNotPlaintext(ResolveKey(reg, env, keyId).value.key, c);
    } else {
      var id :| NewestAuthenticator(reg, c, id, DecryptStr(reg, env, c, keyId).value);
      TokenIsNotPlaintext(reg.keys[id], c);
    }
  }

  /**
   A text that some registry row authenticates is recovered by
   `decrypt_str`, whatever the environment and whatever id hint (stale,
   missing or wrong) accompanies it.
   */
  lemma RegistryKeyRecovers(reg: Registry, env: ProcessEnv, c: string, hint: Option<int>, id: int)
    requires reg.queryable && id in reg.keys && Decrypt(reg.keys[id], c).Some?
    ensures DecryptStr(reg, env, c, hint) == Success(Decrypt(reg.keys[id], c).value)
  {
    var r := DecryptStr(reg, env, c, hint);
    var first := FirstAttempt(reg, env, c, hint);
    if first.Some? {
      var k := ResolveKey(reg, env, hint).value.key;
      AuthenticatorUnique(k, reg.keys[id], c);
    } else {
      assert r.Success?;
      var found :| NewestAuthenticator(reg, c, found, r.value);
      AuthenticatorUnique(reg.keys[found], reg.keys[id], c);
    }
  }

  /**
   Round trip: what `encrypt_str` sealed under a registry key is recovered
   by `decrypt_str` under any environment and any id hint.
   */
  lemma RoundTrip(reg: Registry, env: ProcessEnv, plain: string, n: Nonce, readEnv: ProcessEnv, hint: Option<int>)
    requires reg.queryable
    requires EncryptStr(reg, env, plain, n).Success?
    requires !ResolveKey(reg, env, None).value.source.EnvKey?
    ensures DecryptStr(reg, readEnv, EncryptStr(reg, env, plain, n).value, hint) == Success(plain)
  {
    var resolved := ResolveKey(reg, env, None).value;
    var c := EncryptStr(reg, env, plain, n).value;
    var id := resolved.source.id;
    assert Offer(reg, env, None, resolved.source) == Some(resolved.key);
    assert reg.keys[id] == resolved.key;
    RegistryKeyRecovers(reg, readEnv, c, hint, id);
  }

  /**
   Round trip without the registry condition: with the same settings and
   no id hint, `decrypt_str` resolves the very key `encrypt_str` used.
   */
  lemma RoundTripSameSettings(reg: Registry, env: ProcessEnv, plain: string, n: Nonce)
    requires EncryptStr(reg, env, plain, n).Success?
    ensures DecryptStr(reg, env, EncryptStr(reg, env, plain, n).value, None) == Success(plain)
  {
  }

  /**
   Rotation safety: adding a key to the registry never makes a text that a
   registry key authenticated undecryptable, nor changes what it decrypts to.
   */
  lemma RotationKeepsDecryptable(reg: Registry, env: ProcessEnv, c: string, hint: Option<int>, id: int, newKey: string)
    requires Valid(reg) && reg.queryable
    requires id in reg.keys && Decrypt(reg.keys[id], c).Some?
    ensures DecryptStr(Add(reg, newKey).0, env, c, hint) == DecryptStr(reg, env, c, hint)
  {
    var reg' := Add(reg, newKey).0;
    assert id in reg'.keys && reg'.keys[id] == reg.keys[id];
    RegistryKeyRecovers(reg, env, c, hint, id);
    RegistryKeyRecovers(reg', env, c, hint, id);
  }

  /**
   The active id outranks the newest row: with no truthy explicit id and
   ENCRYPTION_KEY_ID naming a row with a key, that row's key is used even
   when a newer row exists.
   */
  lemma ActiveIdBeatsNewest(reg: Registry, env: ProcessEnv, keyId: Option<int>, id: int)
    requires reg.queryable && !TruthyId(keyId)
    requires ActiveIdOf(env) == Some(id) && KeyFor(reg, id).Some?
    ensures ResolveKey(reg, env, keyId) == Success(Resolved(reg.keys[id], ActiveId(id)))
  {
    assert Offer(reg, env, keyId, ActiveId(id)).Some?;
  }
}
