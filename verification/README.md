# mStock credential store and key rotation, in Dafny

This project models the security core of the mStock authentication tool:

- **Encryption-key resolution** (`get_encryption_key`). It walks a four-step priority chain:
  1. an explicit KEY_ID;
  2. the ENCRYPTION_KEY_ID variable;
  3. the newest row of the SEC01_ENCRYPTION_KEY registry;
  4. the ENCRYPTION_KEY variable.
- **Envelope encryption and fallback decryption** (`encrypt_str`, `decrypt_str`). Decryption falls back to every registry key, newest first.
- **The credential table MS01_API_Authentication_Credential.** This covers its insert, its COALESCE updates, its deletes and its two decrypting readers, plus the session-column update and the login sequence-id generator.
- **The user operations** of `src/users.py`.
- **Key rotation** in `requirements/gen_encryption_key.py`. It adds a registry row and rewrites ENCRYPTION_KEY and ENCRYPTION_KEY_ID in `.env`.
- **`.env` rewriting** (`update_env`), with the dicts that `login` and `logout` pass to it.

Everything is pure functions over immutable data:

- a `Registry` is a map from KEY_ID to key text, plus the auto-increment counter;
- a `Db` is the registry, a map from user id to `Credential`, and whether a connection opens;
- a `ProcessEnv` holds the two environment variables;
- a file is a string, read into lines the way Python's `readlines` does.

Fernet is modelled symbolically. A token is the version prefix, the sealing key, the nonce and the plaintext, side by side. Three cipher laws are proved from that definition:

- decryption inverts encryption;
- a token never opens under a different key;
- a non-token never opens at all.

Randomness, meaning the token nonce and the sequence-id draws, is an input.

Modules, one per file:

- `Types`, `Text` and `Lines` hold the vocabulary.
- `Fernet` is the cipher.
- `KeyRegistry` and `KeyConfig` cover config.py.
- `CredentialStore` covers src/db.py.
- `Users` covers src/users.py.
- `EnvUpdate`, `EnvKeys` and `AuthCli` cover src/mstock_auth_api_cli.py.
- `KeyRotation` covers the rotation script.
- `StoreLaws` relates writers, readers and rotation.

## Model

| member | source | states |
|---|---|---|
| Text.BeforeFirst | src/mstock_auth_api_cli.py:176 | the result is the prefix of the line up to the first `=`, contains no `=`, and is followed by `=` unless it is the whole line |
| Text.ParseNatToDecimal | requirements/gen_encryption_key.py:63 | the KEY_ID written as decimal text into `.env` parses back to the same id when read as ENCRYPTION_KEY_ID |
| Text.DigitsOfDecimal | requirements/gen_encryption_key.py:63 | the decimal text of an id has that id as its digit value |
| Text.StripIdempotent | src/mstock_auth_api_cli.py:176 | stripping a key twice is stripping it once |
| Text.KeyOfAssignment | src/mstock_auth_api_cli.py:176-178 | the text before the first `=` of `key=value` is the key when the key holds no `=` |
| Lines.ConcatReadLines | src/mstock_auth_api_cli.py:171-187 | writing back the lines `readlines` returned gives the file unchanged |
| Lines.ReadLinesShape | src/mstock_auth_api_cli.py:171-172 | every line read is a single line; all but the last end with a newline, and the last does too when the file does |
| Lines.ReadLinesAppend | src/mstock_auth_api_cli.py:182-187 | text appended after a file that ends at a line start is read as separate lines |
| Lines.ReadBackContains | src/mstock_auth_api_cli.py:182-187 | writing newline-terminated lines and reading the file back yields each of them |
| Lines.FinishLastLine | src/mstock_auth_api_cli.py:182-184 | only the last line changes, and it then ends with a newline |
| Fernet.Encrypt | config.py:49-50 | a sealed text is a token of length header plus plaintext |
| Fernet.Decrypt | config.py:59-60 | decryption succeeds only for a valid key and a token, and yields the plaintext length |
| Fernet.DecryptEncrypt | config.py:46-60 | a token decrypts under its own key to what was sealed |
| Fernet.DecryptWrongKey | config.py:64-69 | a token never decrypts under a different key |
| Fernet.DecryptNonToken | config.py:57-61 | text that is not a token never decrypts |
| Fernet.AuthenticatorUnique | config.py:63-69 | at most one key opens a token, so the order of the key scan cannot change the plaintext |
| Fernet.AuthenticatorOfEncrypt | config.py:63-69 | the only key that opens a freshly sealed token is its sealing key |
| Fernet.TokenIsNotPlaintext | src/db.py:30-31 | a text that decrypts differs from its plaintext, so an encrypted password is never the password |
| KeyRegistry.NewestId | config.py:35-37 | the newest row is the highest KEY_ID, and there is none exactly when the table is empty |
| KeyRegistry.DescendingIds | config.py:63 | the ids in strictly descending order, each exactly once |
| KeyRegistry.NewestFirstKeys | config.py:63 | one key per registry row, and the key of row `id` sits at the position equal to the number of rows with a higher KEY_ID, so the highest KEY_ID comes first |
| KeyRegistry.DescendingOrder | config.py:63 | helper for the scan order: in a strictly descending id list a higher KEY_ID sits at an earlier index |
| KeyRegistry.Add | requirements/gen_encryption_key.py:34-41 | the new row gets a fresh id above every existing one, existing rows are untouched, and it becomes the newest row |
| KeyConfig.ResolveKey | config.py:14-44 | the key comes from the first of explicit id, ENCRYPTION_KEY_ID, newest row and ENCRYPTION_KEY that offers a truthy key; registry errors fall through; MissingKey is raised iff no source offers one |
| KeyConfig.ActiveIdBeatsNewest | config.py:29-37 | with no explicit id, a present ENCRYPTION_KEY_ID row wins over the newest row |
| KeyConfig.EncryptStr | config.py:46-50 | encryption uses the key resolved without an id, fails exactly when that key is missing or invalid, and its result decrypts back under that key and differs from the plaintext |
| KeyConfig.FirstAuthenticating | config.py:64-69 | the returned index is the first key that opens the token; none is returned iff no key does |
| KeyConfig.FoundIsNewest | config.py:63-69 | the key the scan finds is the highest KEY_ID that opens the token |
| KeyConfig.NotFoundMeansNone | config.py:63-70 | when the scan finds nothing, no registry row opens the token |
| KeyConfig.Fallback | config.py:61-70 | the scan returns the plaintext of the newest opening key; a ValueError iff no registry key opens it; a registry error escapes unconverted |
| KeyConfig.DecryptStr | config.py:52-70 | a successful first attempt is returned without the scan; otherwise the scan decides; the ENCRYPTION_KEY variable is never retried |
| KeyConfig.DecryptStrChanges | config.py:52-70 | a successful decryption never returns the token itself |
| KeyConfig.RegistryKeyRecovers | config.py:52-70 | a token that some registry key opens decrypts to that key's plaintext whatever id hint is passed |
| KeyConfig.RoundTrip | config.py:46-70 | decrypting what `encrypt_str` sealed under a registry key gives the plaintext back, in any environment and with any id hint |
| KeyConfig.RoundTripSameSettings | config.py:46-60 | with the same environment and no hint, decryption inverts encryption even under the ENCRYPTION_KEY variable |
| KeyConfig.RotationKeepsDecryptable | config.py:61-70 | adding a registry key never changes what a token opened by an existing key decrypts to |
| CredentialStore.AllColumnsComplete | src/db.py:219-228 | helper: the list of session columns the update walks holds every one of the nine columns |
| CredentialStore.InsertCredential | src/db.py:25-48 | the stored password is a token that decrypts to the password and is never the password; the key id stamped is ENCRYPTION_KEY_ID if set, else the highest KEY_ID, else NULL; no other row changes |
| CredentialStore.UpdateCredential | src/db.py:50-79 | each NULL argument keeps its column; a falsy password keeps both password and key id; a truthy one is encrypted and re-stamped, keeping the old key id when no id is available; a user with no row is left absent and no key id text is stored, so a non-numeric ENCRYPTION_KEY_ID fails only when a row matches; no other row changes |
| CredentialStore.DeleteCredential | src/db.py:81-88 | only row `uid` is removed |
| CredentialStore.GetUserCredentials | src/db.py:111-136 | only the five selected columns come back (user id, password, API key, key type, key id), the password still the ciphertext, with the ciphertext field added and the decrypted field set to the plaintext or None; no row means None |
| CredentialStore.GetLatestCredential | src/db.py:90-109 | the five selected columns of the chosen row come back with the password replaced by the plaintext, or by None when decryption raises |
| CredentialStore.UpdateAuthCredentials | src/db.py:209-248 | absent or null fields keep their columns; text, number and bool fields overwrite them with their text; a list or object field, or a reply that is not an object, makes it return false with no change; only row `uid` changes |
| CredentialStore.Candidate | src/db.py:264 | a candidate has exactly `length` characters, all from the alphabet |
| CredentialStore.GenerateUniqueSeqId | src/db.py:254-269 | raises a connection error exactly when no connection opens; otherwise the id returned is the first candidate that the lookup, under the column's collation, finds in no row, of the requested length over the alphabet |
| CredentialStore.CaseVariantTaken | src/db.py:265-266 | under a case-insensitive collation a candidate that differs from a taken id only in letter case is found by the lookup and skipped; under an exact collation a candidate not taken is not found |
| Users.AddUser | src/users.py:3-6 | adding a user is `insert_credential`: the password is stored encrypted |
| Users.UpdateUser | src/users.py:8-22 | NULL arguments keep their columns; the password is stored exactly as given; ENCRYPTION_KEY_ID and the session columns never change; no other row changes |
| Users.DeleteUser | src/users.py:25-32 | only row `uid` is removed |
| Users.UpdateUserLosesPassword | src/users.py:12-19 | after `update_user` with a non-token password, the stored value reads back with decrypted value None |
| Users.UpdateUserEncrypted | src/users.py:8-22 | the corrected update goes through `update_credential` and never stores a truthy password as given |
| Users.UpdateUserEncryptedRecovers | src/users.py:12-19 | after the corrected update, the reader decrypts the new password |
| EnvUpdate.Lookup | src/mstock_auth_api_cli.py:177-178 | a key is found iff some entry has it, with that entry's value |
| EnvUpdate.AppendMissing | src/mstock_auth_api_cli.py:182-184 | existing lines are kept, at most one line per update is appended, and afterwards every update key has a `key=` line |
| EnvUpdate.UpdateEnv | src/mstock_auth_api_cli.py:174-184 | a line whose stripped key is updated becomes `key=value\n`; other lines are copied in place; only entry assignments are appended; every key ends with a line |
| EnvUpdate.UpdateEnvFileReadsBack | src/mstock_auth_api_cli.py:165-187 | on a `.env` that ends with a newline, the file written reads back with `key=value\n` as a line of its own for every entry whose value has no newline |
| EnvUpdate.UpdateEnvFileKeeps | src/mstock_auth_api_cli.py:165-187 | on such a file, every line whose key no entry names reads back unchanged |
| EnvUpdate.AssignmentPrefix | src/mstock_auth_api_cli.py:183 | the line written for one key never starts with another key followed by `=` |
| EnvUpdate.LineKeyOfAssignment | src/mstock_auth_api_cli.py:176-178 | the key read back from a written `key=value` line is the key |
| EnvUpdate.AppendMissingIsFilter | src/mstock_auth_api_cli.py:182-184 | the appended lines are exactly the entries, in dict order, with no `key=` line yet |
| EnvUpdate.RewrittenAssigns | src/mstock_auth_api_cli.py:175-184 | after the rewrite an updated key has a `key=` line iff some input line had that key |
| EnvUpdate.MissingAfterRewrite | src/mstock_auth_api_cli.py:174-184 | the entries appended are those whose key no input line names |
| EnvUpdate.UpdateEnvCharacterized | src/mstock_auth_api_cli.py:174-184 | the output is the rewritten lines followed by the assignments of unnamed keys in update order, so its length is the input's plus the number appended |
| EnvUpdate.RewriteLineKey | src/mstock_auth_api_cli.py:176-178 | rewriting a line keeps its key |
| EnvUpdate.RewriteLineStable | src/mstock_auth_api_cli.py:175-180 | rewriting a rewritten line changes nothing |
| EnvUpdate.UnnamedLines | src/mstock_auth_api_cli.py:182-184 | every appended line is the assignment of an entry whose key no line names |
| EnvUpdate.UpdatedKeysNamed | src/mstock_auth_api_cli.py:182-184 | after the update every key has a line |
| EnvUpdate.OutputStable | src/mstock_auth_api_cli.py:174-184 | rewriting the output again changes no line |
| EnvUpdate.UpdateEnvIdempotent | src/mstock_auth_api_cli.py:174-184 | applying the same updates twice gives the same lines as once |
| EnvUpdate.UpdatedKeysRead | src/mstock_auth_api_cli.py:174-184 | after the update every line keyed by an updated key is exactly `key=value\n` |
| EnvUpdate.UpdateEnvFileGluesLastLine | src/mstock_auth_api_cli.py:171-187 | as written, a file `A=1` without a final newline, updated with B=2, reads back as the one line `A=1B=2\n`, which does not name B |
| EnvUpdate.UpdateEnvFileFixed | src/mstock_auth_api_cli.py:171-187 | the corrected rewrite finishes an unterminated last line first and equals `update_env` on every file that ends with a newline |
| EnvUpdate.UpdateEnvFileFixedReadsBack | src/mstock_auth_api_cli.py:171-187 | after the corrected rewrite, reading the file back finds `key=value\n` for every entry whose value has no newline |
| EnvKeys.LoginKeysDistinct | src/mstock_auth_api_cli.py:95-110 | the fourteen login keys are distinct |
| EnvKeys.LoginKeysNamed | src/mstock_auth_api_cli.py:95-110 | each login key is a plain variable name |
| EnvKeys.LogoutKeysDistinct | src/mstock_auth_api_cli.py:139-150 | the ten logout keys are distinct |
| EnvKeys.LogoutKeysNamed | src/mstock_auth_api_cli.py:139-150 | each logout key is a plain variable name |
| EnvKeys.CredentialKeysKept | src/mstock_auth_api_cli.py:139-150 | no logout key is M_STOCK_USER_ID, M_STOCK_PASSWORD, M_STOCK_API_KEY or M_STOCK_API_KEY_TYPE |
| EnvKeys.LoginDictKeyNames | src/mstock_auth_api_cli.py:95-110 | a dict keyed by the login keys meets the `update_env` key discipline |
| AuthCli.LogoutUpdate | src/mstock_auth_api_cli.py:139-150 | the logout dict sets exactly the ten session keys, each to "" |
| AuthCli.Logout | src/mstock_auth_api_cli.py:135-150 | logout raises a connection error, before touching `.env`, exactly when no connection opens; otherwise a missing `.env` stays missing and an existing one is rewritten by the logout dict |
| AuthCli.LogoutFileBlanks | src/mstock_auth_api_cli.py:135-150 | logout gets past the sequence-id step exactly when a connection opens, and then a `.env` that ended with a newline reads back with the line `key=\n` for every session key |
| AuthCli.LogoutFileKeeps | src/mstock_auth_api_cli.py:135-150 | whether logout returns or raises, such a `.env` still reads back every line of a key outside the session keys |
| AuthCli.LogoutFileKeepsCredentials | src/mstock_auth_api_cli.py:135-150 | in particular it still reads back every credential line |
| AuthCli.LogoutKeyNames | src/mstock_auth_api_cli.py:139-150 | the logout dict meets the `update_env` key discipline |
| AuthCli.LogoutKeepsCredentials | src/mstock_auth_api_cli.py:139-150 | the logout dict leaves every line of a key outside the session keys in place |
| AuthCli.LogoutKeepsCredentialLine | src/mstock_auth_api_cli.py:139-150 | in particular every credential line |
| AuthCli.LogoutBlanksSession | src/mstock_auth_api_cli.py:139-150 | in the lines the logout dict produces, every session key has a line, and each such line is `key=\n` |
| AuthCli.LoginPrepare | src/mstock_auth_api_cli.py:15-33 | login stops before any remote call when the user is missing or decryption raises; otherwise it carries the stored token and its plaintext, which differ |
| AuthCli.LoginUpdate | src/mstock_auth_api_cli.py:95-110 | the login dict has the fourteen keys in order, the stored token under M_STOCK_PASSWORD, and the key type "A" |
| AuthCli.LoginWritesCiphertext | src/mstock_auth_api_cli.py:95-97 | after login `.env` has a M_STOCK_PASSWORD line, every such line holds the stored token and never the password, and the token decrypts to the password |
| AuthCli.PasswordLine | src/mstock_auth_api_cli.py:95-97 | the M_STOCK_PASSWORD lines hold the dict's password value |
| KeyRotation.PrefixesExclusive | requirements/gen_encryption_key.py:59-64 | no line starts with both `ENCRYPTION_KEY=` and `ENCRYPTION_KEY_ID=` |
| KeyRotation.RewriteKeyLines | requirements/gen_encryption_key.py:55-71 | key lines get the new key, id lines the new id, other lines are copied in place; a missing key line and then a missing id line are appended |
| KeyRotation.RewriteKeyLinesSets | requirements/gen_encryption_key.py:55-71 | afterwards there is a key line and an id line, and every line with either prefix is the new one |
| KeyRotation.RewriteKeyLinesIdempotent | requirements/gen_encryption_key.py:55-71 | rewriting again with the same key and id changes nothing |
| KeyRotation.RotateKey | requirements/gen_encryption_key.py:26-82 | a failed connection changes nothing; otherwise the key is added under a fresh id, which becomes the newest row, credentials are untouched, and the file carries that key and id |
| KeyRotation.RotationActivatesKey | requirements/gen_encryption_key.py:34-74 | a process reading back the id written resolves the new key |
| KeyRotation.RotationGluesLastLine | requirements/gen_encryption_key.py:52-74 | as written, rotating a file `DB_PORT=3306` without a final newline glues the key line onto it, and the file read back has no ENCRYPTION_KEY line |
| KeyRotation.RotateKeyFixed | requirements/gen_encryption_key.py:52-74 | the corrected rotation finishes an unterminated last line first and equals the script on every file that ends with a newline |
| KeyRotation.RotateKeyFixedReadsBack | requirements/gen_encryption_key.py:52-74 | after the corrected rotation the file read back has the new key line and the new id line |
| StoreLaws.InsertThenRead | src/db.py:25-48 | a password inserted under a registry key is read back decrypted by `get_user_credentials` |
| StoreLaws.DeleteThenRead | src/db.py:81-88 | after a delete the user is not found |
| StoreLaws.UpdateNothing | src/db.py:50-79 | an update with every argument None leaves the store unchanged |
| StoreLaws.UpdateMissingRow | src/db.py:50-79 | an update of a user with no row leaves the store unchanged once the password encrypts, whatever ENCRYPTION_KEY_ID holds |
| StoreLaws.RotationKeepsReads | requirements/gen_encryption_key.py:34-38 | rotating the key changes nothing a reader sees of a password that a registry key opens |

## Left out

- Fernet internals: AES-CBC, HMAC, base64, the token timestamp and TTL. The cipher is a symbolic model that satisfies the three laws above. `Fernet.generate_key` and the IV are inputs.
- Randomness: `secrets.choice` draws are a finite input. CredentialStore.GenerateUniqueSeqId succeeds with None when the draws run out, where the source loops for ever.
- MySQL:
  - Connections, SQL text and commits are reduced to the `online` and `queryable` flags.
  - The registry query helper that config.py calls is not part of this model. Its failure is the `queryable` flag, fixed for the whole call rather than per query.
  - MySQL's lenient text-to-int coercion of ENCRYPTION_KEY_ID (for example `12abc`) is not modelled: only all-digit text is an id, and other text is rejected by the INT column.
  - Collation of user ids (case-insensitive lookups of M_STOCK_USER_ID) is not modelled: user ids compare exactly.
- CredentialStore.GenerateUniqueSeqId: whether the sequence-id column compares case-insensitively is an input flag, since the schema is not part of this model; a case-insensitive collation is modelled as folding ASCII letters, which covers every character of the alphabet.
- CredentialStore.GetLatestCredential: the SYS_UPDATE_DATE_TIME ordering and CURRENT_TIMESTAMP are not modelled. The row the ordering selects is an input.
- Logging: `insert_log`, `insert_request_response_log` and the log lines written by `users.py` are not modelled. The call to the undefined `generate_login_seq_id` in the logging path is also out.
- The remote part of `login` (MConnect, the OTP prompt, the session reply check, `update_auth_credentials`, the result dict) is not modelled. AuthCli.LoginPrepare models the steps before the first remote call; AuthCli.LoginUpdate models the dict step 5 builds.
- EnvUpdate.UpdateEnvFileReadsBack, EnvUpdate.UpdateEnvFileKeeps, AuthCli.LogoutFileBlanks, AuthCli.LogoutFileKeeps: stated for a `.env` that ends with a newline or is empty, and for entries whose value has no newline (a value with one would be written as two lines). On a file whose last line has no newline, the glued line in the Findings table applies instead.
- AuthCli.LoginUpdate: reply values are texts or absent. A non-text JSON value, printed through Python's `str`, is not modelled.
- AuthCli.LogoutFileBlanks, AuthCli.LogoutBlanksSession: `logout` draws its sequence id (line 137) before the `try`; the model keeps only whether that step can open a connection, not the random draws or the log row inserted after `update_env`.
- AuthCli.LoginPrepare does not model the `generate_unique_seq_id` call that `login` makes before decrypting.
- File I/O:
  - A file is a string.
  - Read and write errors are not modelled. In the rotation script such an error comes after the registry row is added. The final `open(env_path, "w")` empties `.env` before `writelines`, so a failed write can leave it truncated. A missing `.env` is created empty before it is read, which the model treats as the empty file.
  - Only `\n` ends a line: universal-newline translation of `\r\n` is not modelled.
  - `os.path.exists` is the `Some`/`None` of the file.
- Text.Strip: only ASCII whitespace is stripped, not the other Unicode whitespace Python's `str.strip` removes.
- Updates with keys that contain `=` or whitespace: `update_env` is modelled for any dict, but its line-level properties (idempotence, every key read back) are proved for keys with neither, which covers every dict the program passes.
- Concurrency: last-writer-wins between processes on the same user id is not modelled.
- `get_all_users`, `get_connection`, the login/logout stubs in config.py, and the thin wrappers in src/user_add.py, src/user_update.py and src/user_delete.py are outside the core. So are src/env_utils.py, src/auth.py, src/user_login.py and src/log_cleanup.py.

## Findings

| source | as written | input that shows it | evidently intended | confidence | as-written member | corrected member |
|---|---|---|---|---|---|---|
| src/users.py:12-19 | `update_user` binds the password argument directly into `M_STOCK_PASSWORD`, unencrypted, and leaves ENCRYPTION_KEY_ID alone | any existing user updated with password `secret`: `get_user_credentials` then returns `M_STOCK_PASSWORD_DECRYPTED = None`, and login fails with a decryption error | encrypt through `update_credential`, as `src/user_update.py` does, so that the new password reads back | high (not executed) | Users.UpdateUserLosesPassword | Users.UpdateUserEncrypted, Users.UpdateUserEncryptedRecovers |
| src/mstock_auth_api_cli.py:171-187 | `update_env` appends `key=value\n` right after the last line read, even when that line has no newline | `.env` containing `A=1` (no final newline), updates `{B: 2}`: the file becomes `A=1B=2\n`, one line, and B is not set | finish the last line before appending, so every appended assignment is a line of its own | high (not executed) | EnvUpdate.UpdateEnvFileGluesLastLine | EnvUpdate.UpdateEnvFileFixed, EnvUpdate.UpdateEnvFileFixedReadsBack |
| requirements/gen_encryption_key.py:52-74 | the rotation script appends `ENCRYPTION_KEY=...` right after the last line read, even when that line has no newline | `.env` containing `DB_PORT=3306` (no final newline): the key line becomes `DB_PORT=3306ENCRYPTION_KEY=<key>`, so ENCRYPTION_KEY is lost and DB_PORT is corrupted | finish the last line before appending | high (not executed) | KeyRotation.RotationGluesLastLine | KeyRotation.RotateKeyFixed, KeyRotation.RotateKeyFixedReadsBack |
