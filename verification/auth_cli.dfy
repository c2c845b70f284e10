/**
 The login and logout flows of src/mstock_auth_api_cli.py, as far as they
 touch the credential store and the `.env` file: which row and which
 password a login starts from, and which keys each flow writes.
 */
module AuthCli {
  import opened Types
  import opened Text
  import opened Lines
  import opened Fernet
  import opened KeyConfig
  import opened CredentialStore
  import opened EnvUpdate
  import opened EnvKeys

  /** The dict `logout` hands to `update_env`: every session key set to "". */
  function LogoutUpdate(): (u: Updates)
    ensures |u| == |LogoutKeys|
    ensures forall i :: 0 <= i < |u| ==> u[i] == (LogoutKeys[i], "")
  {
    LogoutKeysDistinct();
    Zip(LogoutKeys, seq(|LogoutKeys|, _ => ""))
  }

  /**
   `logout`: `generate_unique_seq_id` opens a connection before the `try`,
   so when none opens the call raises and `.env` is not touched; otherwise
   the session keys of an existing `.env` are blanked. The result is the
   `.env` after the call, or the error raised.
   */
  function Logout(db: Db, file: Option<string>): (r: Result<Option<string>, Error>)
    ensures r.Failure? <==> !db.online
    ensures r.Failure? ==> r.error == ConnectionFailed
    ensures r.Success? ==> (r.value.None? <==> file.None?)
    ensures r.Success? && file.Some? ==> r.value.value == Concat(UpdateEnv(ReadLines(file.value), LogoutUpdate()))
  {
    if !db.online then Failure(ConnectionFailed) else Success(UpdateEnvFile(file, LogoutUpdate()))
  }

  /** The `.env` once `logout` returns or raises. */
  function EnvAfterLogout(db: Db, file: Option<string>): Option<string> {
    var r := Logout(db, file);
    if r.Success? then r.value else file
  }

  lemma LogoutKeyNames()
    ensures KeyNames(LogoutUpdate())
  {
    LogoutKeysNamed();
    EnvNamesAreKeyNames(LogoutUpdate(), LogoutKeys);
  }

  /** Logout writes back in place every line not keyed by a session key. */
  lemma LogoutKeepsCredentials(lines: seq<string>, j: nat)
    requires j < |lines| && LineKey(lines[j]) !in LogoutKeys
    ensures UpdateEnv(lines, LogoutUpdate())[j] == lines[j]
  {
    assert Lookup(LogoutUpdate(), LineKey(lines[j])).None?;
  }

  /** In particular a line keyed by the user id, the password, the API key or its type. */
  lemma LogoutKeepsCredentialLine(lines: seq<string>, j: nat)
    requires j < |lines| && LineKey(lines[j]) in CredentialKeys
    ensures UpdateEnv(lines, LogoutUpdate())[j] == lines[j]
  {
    CredentialKeysKept();
    LogoutKeepsCredentials(lines, j);
  }

  /** In the lines the logout dict produces, every session key is present and every line it keys is blank. */
  lemma LogoutBlanksSession(lines: seq<string>, i: nat)
    requires i < |LogoutKeys|
    ensures Named(UpdateEnv(lines, LogoutUpdate()), LogoutKeys[i])
    ensures forall j :: 0 <= j < |UpdateEnv(lines, LogoutUpdate())|
                        && LineKey(UpdateEnv(lines, LogoutUpdate())[j]) == LogoutKeys[i] ==>
      UpdateEnv(lines, LogoutUpdate())[j] == Assignment(LogoutKeys[i], "")
  {
    LogoutKeyNames();
    UpdatedKeysRead(lines, LogoutUpdate(), i);
  }

  /**
   `logout` gets past its first step exactly when a connection opens, and
   then a `.env` that ended with a newline reads back with the line
   `key=\n` for every session key.
   */
  lemma LogoutFileBlanks(db: Db, s: string, i: nat)
    requires AtLineStart(s) && i < |LogoutKeys|
    ensures Logout(db, Some(s)).Success? <==> db.online
    ensures db.online ==> Assignment(LogoutKeys[i], "") in ReadLines(Logout(db, Some(s)).value.value)
  {
    LogoutKeyNames();
    var u := LogoutUpdate();
    assert u[i] == (LogoutKeys[i], "");
    UpdateEnvFileReadsBack(s, u, i);
  }

  /**
   Whether `logout` returns or raises, such a `.env` still reads back every
   line of a key outside the session keys.
   */
  lemma LogoutFileKeeps(db: Db, s: string, j: nat)
    requires AtLineStart(s) && j < |ReadLines(s)| && LineKey(ReadLines(s)[j]) !in LogoutKeys
    ensures ReadLines(s)[j] in ReadLines(EnvAfterLogout(db, Some(s)).value)
  {
    if db.online {
      assert Lookup(LogoutUpdate(), LineKey(ReadLines(s)[j])).None?;
      UpdateEnvFileKeeps(s, LogoutUpdate(), j);
    }
  }

  /** In particular every credential line. */
  lemma LogoutFileKeepsCredentials(db: Db, s: string, j: nat)
    requires AtLineStart(s) && j < |ReadLines(s)| && LineKey(ReadLines(s)[j]) in CredentialKeys
    ensures ReadLines(s)[j] in ReadLines(EnvAfterLogout(db, Some(s)).value)
  {
    CredentialKeysKept();
    LogoutFileKeeps(db, s, j);
  }

  /** Why a login stops before contacting the broker. */
  datatype LoginStop =
    | UserNotFound       // "User not found in DB"
    | DecryptionFailed   // "Password decryption failed: ..."
    | Raised(error: Error)

  /** What a login carries forward from the store: the stored token, its plaintext, the API key. */
  datatype LoginContext = LoginContext(ciphertext: string, password: string, apiKey: Option<string>)

  /**
   Step 1 of `login`: fetch the row and decrypt its password with the
   row's key id. A missing or falsy password surfaces as a decryption
   failure, because the ciphertext key is then absent from the fetched
   record.
   */
  function LoginPrepare(db: Db, env: ProcessEnv, uid: UserId): (r: Result<LoginContext, LoginStop>)
    ensures r == Failure(Raised(ConnectionFailed)) <==> !db.online
    ensures r == Failure(UserNotFound) <==> db.online && uid !in db.creds
    ensures r == Failure(DecryptionFailed) <==>
      && db.online && uid in db.creds
      && (!Truthy(db.creds[uid].password)
          || DecryptStr(db.registry, env, db.creds[uid].password.value, db.creds[uid].keyId).Failure?)
    ensures r.Success? ==>
      && uid in db.creds
      && db.creds[uid].password == Some(r.value.ciphertext)
      && DecryptStr(db.registry, env, r.value.ciphertext, db.creds[uid].keyId) == Success(r.value.password)
      && r.value.apiKey == db.creds[uid].apiKey
      && r.value.password != r.value.ciphertext
  {
    match GetUserCredentials(db, env, uid)
    case Failure(e) => Failure(Raised(e))
    case Success(None) => Failure(UserNotFound)
    case Success(Some(view)) =>
      match view.fields
      case NoPassword => Failure(DecryptionFailed)
      case Present(c, _) =>
        match DecryptStr(db.registry, env, c, view.row.keyId)
        case Success(p) =>
          DecryptStrChanges(db.registry, env, c, view.row.keyId);
          Success(LoginContext(c, p, view.row.apiKey))
        case Failure(_) => Failure(DecryptionFailed)
  }

  /** Python's `str` of an optional value: `None` prints as "None". */
  function PyStr(v: Option<string>): (s: string)
    ensures v.Some? ==> s == v.value
    ensures v.None? ==> s == "None"
  {
    if v.Some? then v.value else "None"
  }

  /** `data.get(name)` on the text fields of a reply's data object. */
  function Field(data: map<string, string>, name: string): Option<string> {
    if name in data then Some(data[name]) else None
  }

  /**
   The values of the dict step 5 of `login` hands to `update_env`, in the
   order of `LoginKeys`: the stored token (never the plaintext) for
   M_STOCK_PASSWORD, the key type fixed to "A", and the session values of
   the two replies.
   */
  function LoginValues(uid: UserId, ctx: LoginContext, otp: string,
                       loginData: map<string, string>, sessionData: map<string, string>): (v: seq<string>)
    ensures |v| == 14
    ensures v[0] == uid && v[1] == ctx.ciphertext && v[2] == PyStr(ctx.apiKey)
    ensures v[3] == "A" && v[4] == otp
  {
    [uid, ctx.ciphertext, PyStr(ctx.apiKey), "A", otp,
     PyStr(Field(sessionData, "access_token")),
     PyStr(Field(loginData, "cid")),
     PyStr(Field(sessionData, "user_id")),
     PyStr(Field(sessionData, "user_name")),
     PyStr(Field(sessionData, "public_token")),
     PyStr(Field(sessionData, "refresh_token")),
     PyStr(Field(sessionData, "enctoken")),
     PyStr(Field(sessionData, "login_time")),
     PyStr(Field(sessionData, "logout_time"))]
  }

  /** The dict step 5 of `login` hands to `update_env`. */
  function LoginUpdate(uid: UserId, ctx: LoginContext, otp: string,
                       loginData: map<string, string>, sessionData: map<string, string>): (u: Updates)
    ensures |u| == |LoginKeys| && forall i :: 0 <= i < |u| ==> u[i].0 == LoginKeys[i]
    ensures u[0].1 == uid && u[1].1 == ctx.ciphertext && u[2].1 == PyStr(ctx.apiKey)
    ensures u[3].1 == "A" && u[4].1 == otp
  {
    LoginKeysDistinct();
    LoginKeysCount();
    Zip(LoginKeys, LoginValues(uid, ctx, otp, loginData, sessionData))
  }

  /**
   A successful login writes the stored token, not the password, to
   `.env`: afterwards there is a M_STOCK_PASSWORD line, every such line
   holds the token, the token differs from the password, and
   `decrypt_str` turns it back into the password under the row's key id.
   */
  lemma LoginWritesCiphertext(db: Db, env: ProcessEnv, uid: UserId, lines: seq<string>, otp: string,
                              loginData: map<string, string>, sessionData: map<string, string>)
    requires LoginPrepare(db, env, uid).Success?
    ensures
      var ctx := LoginPrepare(db, env, uid).value;
      var out := UpdateEnv(lines, LoginUpdate(uid, ctx, otp, loginData, sessionData));
      && Named(out, "M_STOCK_PASSWORD")
      && (forall j :: 0 <= j < |out| && LineKey(out[j]) == "M_STOCK_PASSWORD" ==>
            out[j] == Assignment("M_STOCK_PASSWORD", ctx.ciphertext))
      && ctx.ciphertext != ctx.password
      && DecryptStr(db.registry, env, ctx.ciphertext, db.creds[uid].keyId) == Success(ctx.password)
  {
    var ctx := LoginPrepare(db, env, uid).value;
    PasswordLine(lines, LoginUpdate(uid, ctx, otp, loginData, sessionData));
  }

  /** In the file the login dict produces, the M_STOCK_PASSWORD lines hold the dict's value. */
  lemma PasswordLine(lines: seq<string>, u: Updates)
    requires |u| == |LoginKeys| && forall i :: 0 <= i < |u| ==> u[i].0 == LoginKeys[i]
    ensures Named(UpdateEnv(lines, u), "M_STOCK_PASSWORD")
    ensures forall j :: 0 <= j < |UpdateEnv(lines, u)| && LineKey(UpdateEnv(lines, u)[j]) == "M_STOCK_PASSWORD" ==>
      UpdateEnv(lines, u)[j] == Assignment("M_STOCK_PASSWORD", u[1].1)
  {
    LoginDictKeyNames(u);
    assert u[1].0 == "M_STOCK_PASSWORD";
    UpdatedKeysRead(lines, u, 1);
  }
}
