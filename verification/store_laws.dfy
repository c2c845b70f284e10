/**
 Laws that tie the credential-store operations to the reader and to key
 rotation: what one operation writes, `get_user_credentials` reads back.
 */
module StoreLaws {
  import opened Types
  import opened Fernet
  import opened KeyRegistry
  import opened KeyConfig
  import opened CredentialStore
  import opened KeyRotation

  /**
   A password that `insert_credential` sealed under a registry key comes
   back from `get_user_credentials` as M_STOCK_PASSWORD_DECRYPTED, whatever
   environment the reader runs in.
   */
  lemma InsertThenRead(db: Db, env: ProcessEnv, readEnv: ProcessEnv, uid: UserId, password: string,
                       apiKey: Option<string>, apiKeyType: Option<string>, n: Nonce)
    requires db.registry.queryable
    requires InsertCredential(db, env, uid, password, apiKey, apiKeyType, n).Success?
    requires !ResolveKey(db.registry, env, None).value.source.EnvKey?
    ensures
      var after := InsertCredential(db, env, uid, password, apiKey, apiKeyType, n).value;
      var row := after.creds[uid];
      GetUserCredentials(after, readEnv, uid) == Success(Some(UserView(Fetch(uid, row), Present(row.password.value, Some(password)))))
  {
    var after := InsertCredential(db, env, uid, password, apiKey, apiKeyType, n).value;
    var row := after.creds[uid];
    var resolved := ResolveKey(db.registry, env, None).value;
    var id := resolved.source.id;
    assert Offer(db.registry, env, None, resolved.source) == Some(resolved.key);
    assert Decrypt(db.registry.keys[id], row.password.value) == Some(password);
    assert row.password.value != "" by {
      assert IsToken(row.password.value);
    }
    RegistryKeyRecovers(after.registry, readEnv, row.password.value, row.keyId, id);
  }

  /** After `delete_credential` the user is not found. */
  lemma DeleteThenRead(db: Db, env: ProcessEnv, uid: UserId)
    requires db.online
    ensures GetUserCredentials(DeleteCredential(db, uid).value, env, uid) == Success(None)
  {
  }

  /** `update_credential` with every argument `None` leaves the store as it was. */
  lemma UpdateNothing(db: Db, env: ProcessEnv, uid: UserId, n: Nonce)
    requires db.online
    ensures UpdateCredential(db, env, uid, None, None, None, n) == Success(db)
  {
    if uid in db.creds {
      var row := db.creds[uid];
      assert row.(password := row.password, apiKey := row.apiKey, apiKeyType := row.apiKeyType, keyId := row.keyId) == row;
      assert db.creds[uid := row] == db.creds;
    }
  }

  /**
   `update_credential` of a user with no row matches nothing: once the
   password, if any, encrypts, the store is unchanged whatever text
   ENCRYPTION_KEY_ID holds.
   */
  lemma UpdateMissingRow(db: Db, env: ProcessEnv, uid: UserId, password: Option<string>,
                         apiKey: Option<string>, apiKeyType: Option<string>, n: Nonce)
    requires db.online && uid !in db.creds
    requires Truthy(password) ==> EncryptStr(db.registry, env, password.value, n).Success?
    ensures UpdateCredential(db, env, uid, password, apiKey, apiKeyType, n) == Success(db)
  {
  }

  /**
   Rotating the key does not change what any reader sees: a stored password
   that some registry key opens reads back the same before and after.
   */
  lemma RotationKeepsReads(db: Db, env: ProcessEnv, file: Option<string>, newKey: string, uid: UserId, id: int)
    requires Valid(db.registry) && db.registry.queryable
    requires uid in db.creds && db.creds[uid].password.Some?
    requires id in db.registry.keys && Decrypt(db.registry.keys[id], db.creds[uid].password.value).Some?
    ensures GetUserCredentials(RotateKey(db, file, newKey).db, env, uid) == GetUserCredentials(db, env, uid)
  {
    if db.online {
      var row := db.creds[uid];
      RotationKeepsDecryptable(db.registry, env, row.password.value, row.keyId, id, newKey);
    }
  }
}
