/**
 The `.env` variable names the login and logout flows of
 src/mstock_auth_api_cli.py write, and the dicts built from them.
 */
module EnvKeys {
  import opened EnvUpdate

  /** The keys of the dict `login` writes, in its order. */
  const LoginKeys: seq<string> := [
    "M_STOCK_USER_ID", "M_STOCK_PASSWORD", "M_STOCK_API_KEY", "M_STOCK_API_KEY_TYPE",
    "M_STOCK_REQUEST_TOKEN_OTP", "M_STOCK_ACCESS_TOKEN", "M_STOCK_CLIENT_CODE",
    "M_STOCK_RESPONSE_USER_ID", "M_STOCK_RESPONSE_USER_NAME", "M_STOCK_PUBLIC_TOKEN",
    "M_STOCK_REFRESH_TOKEN", "M_STOCK_ENC_TOKEN", "M_STOCK_LAST_LOGIN_DATE",
    "M_STOCK_LAST_LOGOUT_DATE"]

  /** The keys `logout` blanks: the session values of the previous login. */
  const LogoutKeys: seq<string> := [
    "M_STOCK_REQUEST_TOKEN_OTP", "M_STOCK_ACCESS_TOKEN", "M_STOCK_CLIENT_CODE",
    "M_STOCK_RESPONSE_USER_ID", "M_STOCK_RESPONSE_USER_NAME", "M_STOCK_PUBLIC_TOKEN",
    "M_STOCK_REFRESH_TOKEN", "M_STOCK_ENC_TOKEN", "M_STOCK_LAST_LOGIN_DATE",
    "M_STOCK_LAST_LOGOUT_DATE"]

  /** The keys that hold the stored credentials rather than session values. */
  const CredentialKeys: seq<string> :=
    ["M_STOCK_USER_ID", "M_STOCK_PASSWORD", "M_STOCK_API_KEY", "M_STOCK_API_KEY_TYPE"]

  /** A variable name as these flows write them: capitals and underscores. */
  predicate EnvName(k: string) {
    forall i :: 0 <= i < |k| ==> k[i] == '_' || 'A' <= k[i] <= 'Z'
  }

  predicate Distinct(keys: seq<string>) {
    forall i, j :: 0 <= i < j < |keys| ==> keys[i] != keys[j]
  }

  /** The dict literal `{keys[0]: values[0], ...}`. */
  function Zip(keys: seq<string>, values: seq<string>): (u: Updates)
    requires |keys| == |values| && Distinct(keys)
    ensures |u| == |keys|
    ensures forall i :: 0 <= i < |u| ==> u[i].0 == keys[i] && u[i].1 == values[i]
  {
    seq(|keys|, i requires 0 <= i < |keys| => (keys[i], values[i]))
  }

  /** A dict whose keys are variable names satisfies the assumptions `update_env`'s properties need. */
  lemma EnvNamesAreKeyNames(u: seq<(string, string)>, keys: seq<string>)
    requires |u| == |keys| && forall i :: 0 <= i < |u| ==> u[i].0 == keys[i]
    requires forall i :: 0 <= i < |keys| ==> EnvName(keys[i])
    ensures KeyNames(u)
  {
  }

  lemma LoginKeysCount()
    ensures |LoginKeys| == 14
  {
  }

  lemma LoginKeysDistinct()
    ensures Distinct(LoginKeys)
  {
  }

  lemma LoginKeysNamed()
    ensures forall i :: 0 <= i < |LoginKeys| ==> EnvName(LoginKeys[i])
  {
    forall i | 0 <= i < |LoginKeys|
      ensures EnvName(LoginKeys[i])
    {
      if i < 7 {
        LoginKeysLow(i);
      } else {
        LoginKeysHigh(i);
      }
    }
  }

  lemma LoginKeysLow(i: nat)
    requires i < 7
    ensures EnvName(LoginKeys[i])
  {
  }

  lemma LoginKeysHigh(i: nat)
    requires 7 <= i < 14
    ensures EnvName(LoginKeys[i])
  {
  }

  lemma LogoutKeysDistinct()
    ensures Distinct(LogoutKeys)
  {
  }

  lemma LogoutKeysNamed()
    ensures forall i :: 0 <= i < |LogoutKeys| ==> EnvName(LogoutKeys[i])
  {
    forall i | 0 <= i < |LogoutKeys|
      ensures EnvName(LogoutKeys[i])
    {
      if i < 5 {
        LogoutKeysLow(i);
      } else {
        LogoutKeysHigh(i);
      }
    }
  }

  lemma LogoutKeysLow(i: nat)
    requires i < 5
    ensures EnvName(LogoutKeys[i])
  {
  }

  lemma LogoutKeysHigh(i: nat)
    requires 5 <= i < 10
    ensures EnvName(LogoutKeys[i])
  {
  }

  /** No credential key is blanked by logout. */
  lemma CredentialKeysKept()
    ensures forall i, j :: 0 <= i < |LogoutKeys| && 0 <= j < |CredentialKeys| ==> LogoutKeys[i] != CredentialKeys[j]
  {
  }

  /** A dict with the login keys, in order, meets the key assumptions of `update_env`'s properties. */
  lemma LoginDictKeyNames(u: seq<(string, string)>)
    requires |u| == |LoginKeys| && forall i :: 0 <= i < |u| ==> u[i].0 == LoginKeys[i]
    ensures KeyNames(u)
  {
    LoginKeysNamed();
    EnvNamesAreKeyNames(u, LoginKeys);
  }
}
