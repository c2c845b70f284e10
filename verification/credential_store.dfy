/**
 The credential table MS01_API_Authentication_Credential and the
 operations of src/db.py on it, as transitions of an immutable database
 value: one record per M_STOCK_USER_ID, plus the key registry the records'
 ENCRYPTION_KEY_ID points into.
 */
module CredentialStore {
  import opened Types
  import opened Text
  import opened Fernet
  import opened KeyRegistry
  import opened KeyConfig

  type UserId = string

  /** The session columns filled from the broker's login and session replies. */
  datatype SessionColumn =
    | ClientCode        // M_CLIENT_CODE
    | ResponseUserId    // M_RESPONSE_USER_ID
    | ResponseUserName  // M_RESPONSE_USER_NAME
    | AccessToken       // M_ACCESS_TOKEN
    | PublicToken       // M_PUBLIC_TOKEN
    | RefreshToken      // M_REFRESH_TOKEN
    | EncToken          // M_ENC_TOKEN
    | LastLoginDate     // LAST_LOGIN_DATE
    | LastLogoutDate    // LAST_LOGOUT_DATE

  const AllColumns: seq<SessionColumn> :=
    [ClientCode, ResponseUserId, ResponseUserName, AccessToken, PublicToken,
     RefreshToken, EncToken, LastLoginDate, LastLogoutDate]

  lemma AllColumnsComplete()
    ensures forall col :: col in AllColumns
  {
    forall col
      ensures col in AllColumns
    {
      match col
      case ClientCode => assert AllColumns[0] == col;
      case ResponseUserId => assert AllColumns[1] == col;
      case ResponseUserName => assert AllColumns[2] == col;
      case AccessToken => assert AllColumns[3] == col;
      case PublicToken => assert AllColumns[4] == col;
      case RefreshToken => assert AllColumns[5] == col;
      case EncToken => assert AllColumns[6] == col;
      case LastLoginDate => assert AllColumns[7] == col;
      case LastLogoutDate => assert AllColumns[8] == col;
    }
  }

  /** Session columns; a column missing from the map is `NULL`. */
  type Session = map<SessionColumn, string>

  function ColumnValue(s: Session, col: SessionColumn): Option<string> {
    if col in s then Some(s[col]) else None
  }

  /**
   One credential row. `password` is M_STOCK_PASSWORD, normally a token;
   `keyId` is ENCRYPTION_KEY_ID, a weak reference into the registry.
   */
  datatype Credential = Credential(
    password: Option<string>,
    apiKey: Option<string>,
    apiKeyType: Option<string>,
    keyId: Option<int>,
    session: Session)

  /** The database: the key registry, the credential rows, and whether it accepts connections. */
  datatype Db = Db(registry: Registry, creds: map<UserId, Credential>, online: bool)

  /** The rows of users other than `uid` are identical in both states. */
  ghost predicate OthersUnchanged(before: Db, after: Db, uid: UserId) {
    && (forall u :: u != uid ==> (u in after.creds <==> u in before.creds))
    && (forall u :: u != uid && u in before.creds ==> after.creds[u] == before.creds[u])
  }

  /**
   The ENCRYPTION_KEY_ID stamped next to a new password: the
   ENCRYPTION_KEY_ID variable if truthy, else the highest KEY_ID by a direct
   query, else `NULL`. A non-numeric variable is refused by the INT column.
   */
  function StampKeyId(reg: Registry, env: ProcessEnv): Result<Option<int>, Error> {
    if Truthy(env.keyId) then
      if ParseNat(env.keyId.value).Some? then Success(Some(ParseNat(env.keyId.value).value))
      else Failure(BadKeyIdText)
    else Success(NewestId(reg))
  }

  /**
   `insert_credential`: stores `encrypt_str(password)`, stamped with the
   active key id, as a new row with no session values.
   */
  function InsertCredential(db: Db, env: ProcessEnv, uid: UserId, password: string,
                            apiKey: Option<string>, apiKeyType: Option<string>, n: Nonce): (r: Result<Db, Error>)
    ensures !db.online ==> r == Failure(ConnectionFailed)
    ensures r.Success? <==>
      db.online && EncryptStr(db.registry, env, password, n).Success?
      && StampKeyId(db.registry, env).Success? && uid !in db.creds
    ensures r.Success? ==> r.value.registry == db.registry && r.value.online
    ensures r.Success? ==> OthersUnchanged(db, r.value, uid) && uid in r.value.creds
    ensures r.Success? ==>
      var row := r.value.creds[uid];
      && row.password.Some?
      && row.password.value != password
      && Decrypt(ResolveKey(db.registry, env, None).value.key, row.password.value) == Some(password)
      && row.apiKey == apiKey && row.apiKeyType == apiKeyType
      && row.session == map[]
    ensures r.Success? && Truthy(env.keyId) ==> r.value.creds[uid].keyId == ActiveIdOf(env)
    ensures r.Success? && !Truthy(env.keyId) ==>
      (r.value.creds[uid].keyId.None? <==> db.registry.keys.Keys == {})
      && (r.value.creds[uid].keyId.Some? ==>
            forall id :: id in db.registry.keys ==> id <= r.value.creds[uid].keyId.value)
      && (r.value.creds[uid].keyId.Some? ==> r.value.creds[uid].keyId.value in db.registry.keys)
  {
    if !db.online then Failure(ConnectionFailed)
    else
      var c :- EncryptStr(db.registry, env, password, n);
      var stamp :- StampKeyId(db.registry, env);
      if uid in db.creds then Failure(DuplicateUser)
      else Success(db.(creds := db.creds[uid := Credential(Some(c), apiKey, apiKeyType, stamp, map[])]))
  }

  /** The COALESCE update of the static columns of row `uid`, if it exists. */
  function CoalesceRow(db: Db, uid: UserId, password: Option<string>, apiKey: Option<string>,
                       apiKeyType: Option<string>, keyId: Option<int>): Db
  {
    if uid !in db.creds then db
    else
      var row := db.creds[uid];
      db.(creds := db.creds[uid := row.(password := Coalesce(password, row.password),
                                        apiKey := Coalesce(apiKey, row.apiKey),
                                        apiKeyType := Coalesce(apiKeyType, row.apiKeyType),
                                        keyId := Coalesce(keyId, row.keyId))])
  }

  /**
   `update_credential`: a COALESCE update of row `uid`. A truthy password
   is encrypted and re-stamped; a falsy one leaves both the password and
   its key id alone. The key id text reaches the INT column only when the
   WHERE clause matches a row, so a missing row never raises BadKeyIdText.
   */
  function UpdateCredential(db: Db, env: ProcessEnv, uid: UserId, password: Option<string>,
                            apiKey: Option<string>, apiKeyType: Option<string>, n: Nonce): (r: Result<Db, Error>)
    ensures !db.online ==> r == Failure(ConnectionFailed)
    ensures r.Failure? <==>
      || !db.online
      || (Truthy(password) && (EncryptStr(db.registry, env, password.value, n).Failure?
                               || (uid in db.creds && StampKeyId(db.registry, env).Failure?)))
    ensures r.Success? ==> r.value.registry == db.registry && r.value.online
    ensures r.Success? ==> OthersUnchanged(db, r.value, uid) && (uid in r.value.creds <==> uid in db.creds)
    ensures r.Success? && uid !in db.creds ==> r.value == db
    ensures r.Success? && uid in db.creds ==>
      var before := db.creds[uid];
      var after := r.value.creds[uid];
      && after.apiKey == Coalesce(apiKey, before.apiKey)
      && after.apiKeyType == Coalesce(apiKeyType, before.apiKeyType)
      && after.session == before.session
      && (!Truthy(password) ==> after.password == before.password && after.keyId == before.keyId)
      && (Truthy(password) ==>
            && after.password.Some?
            && Decrypt(ResolveKey(db.registry, env, None).value.key, after.password.value) == password
            && (Truthy(env.keyId) ==> after.keyId == ActiveIdOf(env))
            && (!Truthy(env.keyId) && db.registry.keys.Keys == {} ==> after.keyId == before.keyId)
            && (!Truthy(env.keyId) && db.registry.keys.Keys != {} ==> after.keyId == NewestId(db.registry)))
  {
    if !db.online then Failure(ConnectionFailed)
    else if Truthy(password) then
      var c :- EncryptStr(db.registry, env, password.value, n);
      if uid !in db.creds then Success(db)
      else
        var stamp :- StampKeyId(db.registry, env);
        Success(CoalesceRow(db, uid, Some(c), apiKey, apiKeyType, stamp))
    else Success(CoalesceRow(db, uid, None, apiKey, apiKeyType, None))
  }

  /** `delete_credential`: removes row `uid` and nothing else. */
  function DeleteCredential(db: Db, uid: UserId): (r: Result<Db, Error>)
    ensures r.Failure? <==> !db.online
    ensures r.Success? ==> uid !in r.value.creds && OthersUnchanged(db, r.value, uid)
    ensures r.Success? ==> r.value.registry == db.registry && r.value.online
  {
    if !db.online then Failure(ConnectionFailed)
    else Success(db.(creds := db.creds - {uid}))
  }

  /** `decrypt_str` with every exception replaced by `None`, as both readers do. */
  function DecryptOrNone(reg: Registry, env: ProcessEnv, c: string, keyId: Option<int>): (r: Option<string>)
    ensures r.Some? <==> DecryptStr(reg, env, c, keyId).Success?
    ensures r.Some? ==> r.value == DecryptStr(reg, env, c, keyId).value
  {
    var d := DecryptStr(reg, env, c, keyId);
    if d.Success? then Some(d.value) else None
  }

  /** The extra keys `get_user_credentials` adds when the stored password is truthy. */
  datatype PasswordFields =
    | NoPassword
    | Present(ciphertext: string, decrypted: Option<string>)

  /**
   The five columns both readers SELECT: M_STOCK_USER_ID, M_STOCK_PASSWORD,
   M_STOCK_API_KEY, M_STOCK_API_KEY_TYPE and ENCRYPTION_KEY_ID. The session
   columns are not fetched.
   */
  datatype Fetched = Fetched(userId: UserId, password: Option<string>, apiKey: Option<string>,
                             apiKeyType: Option<string>, keyId: Option<int>)

  /** The fetched columns of row `uid`. */
  function Fetch(uid: UserId, row: Credential): Fetched {
    Fetched(uid, row.password, row.apiKey, row.apiKeyType, row.keyId)
  }

  datatype UserView = UserView(row: Fetched, fields: PasswordFields)

  /**
   `get_user_credentials`: the row of `uid`, M_STOCK_PASSWORD still the
   ciphertext, with M_STOCK_PASSWORD_CIPHERTEXT beside it and
   M_STOCK_PASSWORD_DECRYPTED set to the plaintext or to `None`.
   Decryption errors never propagate.
   */
  function GetUserCredentials(db: Db, env: ProcessEnv, uid: UserId): (r: Result<Option<UserView>, Error>)
    ensures r.Failure? <==> !db.online
    ensures r.Failure? ==> r.error == ConnectionFailed
    ensures r.Success? ==> (r.value.None? <==> uid !in db.creds)
    ensures r.Success? && r.value.Some? ==>
      var view := r.value.value;
      var stored := db.creds[uid];
      && view.row.userId == uid
      && view.row.password == stored.password && view.row.apiKey == stored.apiKey
      && view.row.apiKeyType == stored.apiKeyType && view.row.keyId == stored.keyId
      && (view.fields.Present? <==> Truthy(view.row.password))
      && (view.fields.Present? ==>
            var d := DecryptStr(db.registry, env, view.row.password.value, view.row.keyId);
            && view.fields.ciphertext == view.row.password.value
            && (view.fields.decrypted.Some? <==> d.Success?)
            && (d.Success? ==> view.fields.decrypted == Some(d.value)))
  {
    if !db.online then Failure(ConnectionFailed)
    else if uid !in db.creds then Success(None)
    else
      var row := Fetch(uid, db.creds[uid]);
      if Truthy(row.password) then
        Success(Some(UserView(row, Present(row.password.value,
                                           DecryptOrNone(db.registry, env, row.password.value, row.keyId)))))
      else Success(Some(UserView(row, NoPassword)))
  }

  /**
   `get_latest_credential`: the fetched columns of the most recently
   updated row with M_STOCK_PASSWORD replaced by its plaintext, or by
   `None` when decryption raises. Which row the timestamp order selects is
   the input `latest`.
   */
  function GetLatestCredential(db: Db, env: ProcessEnv, latest: Option<UserId>): (r: Result<Option<Fetched>, Error>)
    requires latest.Some? ==> latest.value in db.creds
    requires latest.None? ==> db.creds.Keys == {}
    ensures r.Failure? <==> !db.online
    ensures r.Success? ==> (r.value.None? <==> db.creds.Keys == {})
    ensures r.Success? && r.value.Some? ==>
      var stored := db.creds[latest.value];
      var row := r.value.value;
      && row.userId == latest.value
      && row.apiKey == stored.apiKey && row.apiKeyType == stored.apiKeyType && row.keyId == stored.keyId
      && (!Truthy(stored.password) ==> row.password == stored.password)
      && (Truthy(stored.password) ==>
            var d := DecryptStr(db.registry, env, stored.password.value, stored.keyId);
            && (row.password.Some? <==> d.Success?)
            && (d.Success? ==> row.password == Some(d.value)))
  {
    if !db.online then Failure(ConnectionFailed)
    else if latest.None? then Success(None)
    else
      var row := Fetch(latest.value, db.creds[latest.value]);
      if Truthy(row.password) then
        Success(Some(row.(password := DecryptOrNone(db.registry, env, row.password.value, row.keyId))))
      else Success(Some(row))
  }

  /**
   The JSON values the broker replies with. A number carries the literal
   text the driver sends for it.
   */
  datatype Json =
    | JNull
    | JBool(b: bool)
    | JNumber(literal: string)
    | JText(text: string)
    | JList(items: seq<Json>)
    | JObject(fields: map<string, Json>)

  /** `reply.get("data", {})`; `None` where the reply is not an object and `.get` raises. */
  function DataOf(reply: Json): Option<Json> {
    match reply
    case JObject(fields) => Some(if "data" in fields then fields["data"] else JObject(map[]))
    case _ => None
  }

  /** A value bound as an SQL parameter: `NULL`, a text, or one the driver refuses. */
  datatype SqlParam = Null | Text(text: string) | Unbindable

  /**
   `data.get(name)` as an SQL parameter; a non-object `data` makes `.get`
   raise. The driver binds a number by its literal and a bool as 1 or 0,
   which a text column stores as that text; a list or a dict it refuses.
   */
  function FieldParam(data: Json, name: string): SqlParam {
    match data
    case JObject(fields) =>
      if name !in fields then Null
      else (match fields[name]
            case JNull => Null
            case JBool(b) => Text(if b then "1" else "0")
            case JNumber(t) => Text(t)
            case JText(t) => Text(t)
            case JList(_) => Unbindable
            case JObject(_) => Unbindable)
    case _ => Unbindable
  }

  /** The reply field each session column is read from. */
  function JsonField(col: SessionColumn): string {
    match col
    case ClientCode => "cid"
    case ResponseUserId => "user_id"
    case ResponseUserName => "user_name"
    case AccessToken => "access_token"
    case PublicToken => "public_token"
    case RefreshToken => "refresh_token"
    case EncToken => "enctoken"
    case LastLoginDate => "login_time"
    case LastLogoutDate => "logout_time"
  }

  /** The parameter bound for `col`: the client code from the login reply, the rest from the session reply. */
  function ColumnParam(loginData: Json, sessionData: Json, col: SessionColumn): SqlParam {
    if col == ClientCode then FieldParam(loginData, JsonField(col)) else FieldParam(sessionData, JsonField(col))
  }

  function ParamValue(p: SqlParam): Option<string> {
    if p.Text? then Some(p.text) else None
  }

  /** Whether the update statement can be executed at all. */
  predicate Bindable(db: Db, loginReply: Json, sessionReply: Json) {
    && db.online
    && DataOf(loginReply).Some?
    && DataOf(sessionReply).Some?
    && forall i :: 0 <= i < |AllColumns| ==>
         !ColumnParam(DataOf(loginReply).value, DataOf(sessionReply).value, AllColumns[i]).Unbindable?
  }

  /**
   `update_auth_credentials`: a COALESCE update of the session columns of
   row `uid` from the two replies; `true` on success, `false` with no
   change on any exception.
   */
  function UpdateAuthCredentials(db: Db, uid: UserId, loginReply: Json, sessionReply: Json): (r: (bool, Db))
    ensures !r.0 ==> r.1 == db
    ensures r.0 <==> Bindable(db, loginReply, sessionReply)
    ensures r.1.registry == db.registry && r.1.online == db.online
    ensures OthersUnchanged(db, r.1, uid) && (uid in r.1.creds <==> uid in db.creds)
    ensures r.0 && uid in db.creds ==>
      var before := db.creds[uid];
      var after := r.1.creds[uid];
      && after == before.(session := after.session)
      && forall col ::
           var p := ColumnParam(DataOf(loginReply).value, DataOf(sessionReply).value, col);
           && (p.Null? ==> ColumnValue(after.session, col) == ColumnValue(before.session, col))
           && (p.Text? ==> ColumnValue(after.session, col) == Some(p.text))
  {
    if !Bindable(db, loginReply, sessionReply) then (false, db)
    else if uid !in db.creds then (true, db)
    else
      var loginData := DataOf(loginReply).value;
      var sessionData := DataOf(sessionReply).value;
      var row := db.creds[uid];
      var session := map col | col in AllColumns
                               && Coalesce(ParamValue(ColumnParam(loginData, sessionData, col)),
                                           ColumnValue(row.session, col)).Some?
                             :: Coalesce(ParamValue(ColumnParam(loginData, sessionData, col)),
                                         ColumnValue(row.session, col)).value;
      AllColumnsComplete();
      (true, db.(creds := db.creds[uid := row.(session := session)]))
  }

  /** The characters of a login sequence id: letters, digits and fourteen symbols. */
  const SeqIdAlphabet: string :=
    "abcdefghijklmnopqrstuvwxyzABCDEFGHIJKLMNOPQRSTUVWXYZ0123456789!@#$%^&*()-_=+"

  /** The random draws the generator makes, one index per character. */
  predicate DrawsInRange(draws: seq<seq<int>>) {
    forall k, i :: 0 <= k < |draws| && 0 <= i < |draws[k]| ==> 0 <= draws[k][i] < |SeqIdAlphabet|
  }

  /** The candidate `''.join(choice(alphabet) for _ in range(length))` built from one draw. */
  function Candidate(draw: seq<int>, length: int): (s: string)
    requires |draw| >= length
    requires forall i :: 0 <= i < |draw| ==> 0 <= draw[i] < |SeqIdAlphabet|
    ensures |s| == if length < 0 then 0 else length
    ensures forall i :: 0 <= i < |s| ==> s[i] in SeqIdAlphabet
  {
    var n := if length < 0 then 0 else length;
    seq(n, i requires 0 <= i < n => SeqIdAlphabet[draw[i]])
  }

  /** ASCII letters folded to lower case, as a case-insensitive collation compares them. */
  function FoldCase(s: string): (f: string)
    ensures |f| == |s|
  {
    seq(|s|, i requires 0 <= i < |s| => if 'A' <= s[i] <= 'Z' then (s[i] as int + 32) as char else s[i])
  }

  /** A text as the column's collation compares it: folded when case-insensitive, as is otherwise. */
  function Collated(s: string, caseInsensitive: bool): string {
    if caseInsensitive then FoldCase(s) else s
  }

  /** The values `WHERE column = %s` can match, under the column's collation. */
  function TakenKeys(taken: set<string>, caseInsensitive: bool): set<string> {
    set t | t in taken :: Collated(t, caseInsensitive)
  }

  /** Folding twice is folding once. */
  lemma FoldCaseIdempotent(s: string)
    ensures FoldCase(FoldCase(s)) == FoldCase(s)
  {
  }

  /**
   Under a case-insensitive collation a text that differs from a taken id
   only in letter case is taken too, so the generator never returns it.
   */
  lemma CaseVariantTaken(taken: set<string>, t: string, s: string)
    requires t in taken && FoldCase(s) == FoldCase(t)
    ensures Collated(s, true) in TakenKeys(taken, true)
    ensures s !in taken ==> Collated(s, false) !in TakenKeys(taken, false)
  {
  }

  /**
   `generate_unique_seq_id`: opens a connection, raising when it cannot, then
   draws candidates until the lookup finds no row of the column (`taken`)
   equal to one under the column's collation. The source loops for ever;
   here the draws are a finite input and `None` means they ran out.
   */
  method GenerateUniqueSeqId(db: Db, taken: set<string>, caseInsensitive: bool, length: int, draws: seq<seq<int>>)
    returns (r: Result<Option<string>, Error>)
    requires forall k :: 0 <= k < |draws| ==> |draws[k]| >= length
    requires DrawsInRange(draws)
    ensures r.Failure? <==> !db.online
    ensures r.Failure? ==> r.error == ConnectionFailed
    ensures r.Success? && r.value.Some? ==> r.value.value !in taken
    ensures r.Success? && r.value.Some? ==>
      forall t :: t in taken ==> Collated(t, caseInsensitive) != Collated(r.value.value, caseInsensitive)
    ensures r.Success? && r.value.Some? ==> |r.value.value| == (if length < 0 then 0 else length)
    ensures r.Success? && r.value.Some? ==> forall i :: 0 <= i < |r.value.value| ==> r.value.value[i] in SeqIdAlphabet
    ensures r.Success? && r.value.Some? ==>
      exists k :: && 0 <= k < |draws|
                  && r.value.value == Candidate(draws[k], length)
                  && forall j :: 0 <= j < k ==> Collated(Candidate(draws[j], length), caseInsensitive) in TakenKeys(taken, caseInsensitive)
    ensures r.Success? && r.value.None? ==>
      forall k :: 0 <= k < |draws| ==> Collated(Candidate(draws[k], length), caseInsensitive) in TakenKeys(taken, caseInsensitive)
  {
    if !db.online {
      return Failure(ConnectionFailed);
    }
    var keys := TakenKeys(taken, caseInsensitive);
    var k := 0;
    while k < |draws|
      invariant 0 <= k <= |draws|
      invariant forall j :: 0 <= j < k ==> Collated(Candidate(draws[j], length), caseInsensitive) in keys
    {
      var candidate := Candidate(draws[k], length);
      if Collated(candidate, caseInsensitive) !in keys {
        return Success(Some(candidate));
      }
      k := k + 1;
    }
    return Success(None);
  }
}
