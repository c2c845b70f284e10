/**
 The user operations of src/users.py. `add_user` goes through the
 encrypting insert; `update_user` and `delete_user` run their own SQL, and
 `update_user` writes the password it is given without encrypting it.
 */
module Users {
  import opened Types
  import opened Fernet
  import opened KeyRegistry
  import opened KeyConfig
  import opened CredentialStore

  /** `add_user`: `insert_credential`; the log line it writes afterwards is not modelled. */
  function AddUser(db: Db, env: ProcessEnv, uid: UserId, password: string,
                   apiKey: Option<string>, apiKeyType: Option<string>, n: Nonce): (r: Result<Db, Error>)
    ensures r == InsertCredential(db, env, uid, password, apiKey, apiKeyType, n)
    ensures r.Success? ==>
      && r.value.creds[uid].password != Some(password)
      && Decrypt(ResolveKey(db.registry, env, None).value.key, r.value.creds[uid].password.value) == Some(password)
  {
    InsertCredential(db, env, uid, password, apiKey, apiKeyType, n)
  }

  /**
   `update_user`: a COALESCE update of the password, API key and key type
   of row `uid`. The password is stored as given, and ENCRYPTION_KEY_ID is
   never touched.
   */
  function UpdateUser(db: Db, uid: UserId, password: Option<string>,
                      apiKey: Option<string>, apiKeyType: Option<string>): (r: Result<Db, Error>)
    ensures r.Failure? <==> !db.online
    ensures r.Success? ==> r.value.registry == db.registry && r.value.online
    ensures r.Success? ==> OthersUnchanged(db, r.value, uid) && (uid in r.value.creds <==> uid in db.creds)
    ensures r.Success? && uid in db.creds ==>
      var before := db.creds[uid];
      var after := r.value.creds[uid];
      && (password.Some? ==> after.password == password)
      && (password.None? ==> after.password == before.password)
      && (apiKey.Some? ==> after.apiKey == apiKey)
      && (apiKey.None? ==> after.apiKey == before.apiKey)
      && (apiKeyType.Some? ==> after.apiKeyType == apiKeyType)
      && (apiKeyType.None? ==> after.apiKeyType == before.apiKeyType)
      && after.keyId == before.keyId
      && after.session == before.session
  {
    if !db.online then Failure(ConnectionFailed)
    else Success(CoalesceRow(db, uid, password, apiKey, apiKeyType, None))
  }

  /** `delete_user`: removes row `uid` and nothing else. */
  function DeleteUser(db: Db, uid: UserId): (r: Result<Db, Error>)
    ensures r.Failure? <==> !db.online
    ensures r.Success? ==> uid !in r.value.creds && OthersUnchanged(db, r.value, uid)
    ensures r.Success? ==> r.value.registry == db.registry && r.value.online
  {
    if !db.online then Failure(ConnectionFailed)
    else Success(db.(creds := db.creds - {uid}))
  }

  /**
   As written, `update_user` leaves a password that no reader can recover:
   any new password that is not a token reads back with
   M_STOCK_PASSWORD_DECRYPTED = `None`, whatever the registry holds.
   */
  lemma UpdateUserLosesPassword(db: Db, env: ProcessEnv, uid: UserId, p: string,
                                apiKey: Option<string>, apiKeyType: Option<string>)
    requires db.online && uid in db.creds && p != "" && !IsToken(p)
    ensures
      var after := UpdateUser(db, uid, Some(p), apiKey, apiKeyType).value;
      GetUserCredentials(after, env, uid) == Success(Some(UserView(Fetch(uid, after.creds[uid]), Present(p, None))))
  {
    var after := UpdateUser(db, uid, Some(p), apiKey, apiKeyType).value;
    var row := after.creds[uid];
    assert row.password == Some(p);
    forall k: string
      ensures Decrypt(k, p) == None
    {
      DecryptNonToken(k, p);
    }
    var d := DecryptStr(after.registry, env, p, row.keyId);
    assert d.Failure?;
  }

  /**
   The evidently intended `update_user`, as src/user_update.py does it:
   through `update_credential`, which encrypts the password and re-stamps
   its key id.
   */
  function UpdateUserEncrypted(db: Db, env: ProcessEnv, uid: UserId, password: Option<string>,
                               apiKey: Option<string>, apiKeyType: Option<string>, n: Nonce): (r: Result<Db, Error>)
    ensures r == UpdateCredential(db, env, uid, password, apiKey, apiKeyType, n)
    ensures r.Success? && uid in db.creds && Truthy(password) ==>
      r.value.creds[uid].password != password
  {
    var r := UpdateCredential(db, env, uid, password, apiKey, apiKeyType, n);
    if r.Success? && uid in db.creds && Truthy(password) then
      TokenIsNotPlaintext(ResolveKey(db.registry, env, None).value.key, r.value.creds[uid].password.value);
      r
    else r
  }

  /**
   The corrected update keeps the password readable: after it, when the
   key it sealed under is a registry key, `get_user_credentials` returns
   the new password as the decrypted value.
   */
  lemma UpdateUserEncryptedRecovers(db: Db, env: ProcessEnv, readEnv: ProcessEnv, uid: UserId, p: string,
                                    apiKey: Option<string>, apiKeyType: Option<string>, n: Nonce)
    requires uid in db.creds && p != "" && db.registry.queryable
    requires UpdateUserEncrypted(db, env, uid, Some(p), apiKey, apiKeyType, n).Success?
    requires !ResolveKey(db.registry, env, None).value.source.EnvKey?
    ensures
      var after := UpdateUserEncrypted(db, env, uid, Some(p), apiKey, apiKeyType, n).value;
      && GetUserCredentials(after, readEnv, uid).Success?
      && GetUserCredentials(after, readEnv, uid).value.Some?
      && GetUserCredentials(after, readEnv, uid).value.value.fields.Present?
      && GetUserCredentials(after, readEnv, uid).value.value.fields.decrypted == Some(p)
  {
    var after := UpdateUserEncrypted(db, env, uid, Some(p), apiKey, apiKeyType, n).value;
    var resolved := ResolveKey(db.registry, env, None).value;
    var id := resolved.source.id;
    assert Offer(db.registry, env, None, resolved.source) == Some(resolved.key);
    assert db.registry.keys[id] == resolved.key;
    var row := after.creds[uid];
    assert Decrypt(db.registry.keys[id], row.password.value) == Some(p);
    RegistryKeyRecovers(after.registry, readEnv, row.password.value, row.keyId, id);
  }
}
