/**
 A symbolic model of Fernet, the authenticated token scheme (AES-128-CBC
 with HMAC-SHA256) that config.py uses as its envelope cipher.

 A token here is the version prefix, the sealing key, the IV/timestamp
 nonce and the plaintext, side by side. The model is transparent on
 purpose: it is not a statement about secrecy but a concrete witness for
 the three laws the key-fallback logic relies on, each proved below —
 decryption inverts encryption under the same key, a token sealed under
 one key never authenticates under another, and a text that is not a token
 never authenticates at all.
 */
module Fernet {
  import opened Types

  /** Fernet keys are 32 bytes written in URL-safe base64: 44 characters. */
  const KeyLength: nat := 44
  /** Width of the per-token randomness (the IV and timestamp). */
  const NonceLength: nat := 16
  /** Every Fernet token starts with the base64 form of version byte 0x80. */
  const VersionPrefix: string := "gAAAAA"
  const HeaderLength: nat := |VersionPrefix| + KeyLength + NonceLength

  const UrlSafeAlphabet: string := "ABCDEFGHIJKLMNOPQRSTUVWXYZabcdefghijklmnopqrstuvwxyz0123456789-_"

  /** The random part of a token, an input of the model rather than a draw. */
  type Nonce = s: string | |s| == NonceLength witness "AAAAAAAAAAAAAAAA"

  /** Key text that `Fernet(key.encode())` accepts. */
  predicate ValidKey(k: string) {
    && |k| == KeyLength
    && k[KeyLength - 1] == '='
    && forall i :: 0 <= i < KeyLength - 1 ==> k[i] in UrlSafeAlphabet
  }

  /** The key a text claims to be sealed under, when it is long enough. */
  function SealingKey(c: string): string
    requires |c| >= HeaderLength
  {
    c[|VersionPrefix|..|VersionPrefix| + KeyLength]
  }

  /** Text that is shaped like a token under some valid key. */
  predicate IsToken(c: string) {
    && |c| >= HeaderLength
    && c[..|VersionPrefix|] == VersionPrefix
    && ValidKey(SealingKey(c))
  }

  /** `Fernet(k).encrypt(p)` with the randomness `n`. */
  function Encrypt(k: string, p: string, n: Nonce): (c: string)
    requires ValidKey(k)
    ensures IsToken(c) && |c| == HeaderLength + |p|
  {
    var c := VersionPrefix + k + n + p;
    assert c[..|VersionPrefix|] == VersionPrefix;
    assert SealingKey(c) == k;
    c
  }

  /** `Fernet(k).decrypt(c)`; `None` where Fernet raises. */
  function Decrypt(k: string, c: string): (r: Option<string>)
    ensures r.Some? ==> ValidKey(k) && IsToken(c) && |r.value| + HeaderLength == |c|
  {
    if ValidKey(k) && IsToken(c) && SealingKey(c) == k then Some(c[HeaderLength..]) else None
  }

  /** Law 1: a token decrypts under its own key to what was sealed. */
  lemma DecryptEncrypt(k: string, p: string, n: Nonce)
    requires ValidKey(k)
    ensures Decrypt(k, Encrypt(k, p, n)) == Some(p)
  {
    var c := Encrypt(k, p, n);
    assert c == VersionPrefix + k + n + p;
    assert SealingKey(c) == k;
    assert c[HeaderLength..] == p;
  }

  /** Law 2: a token never authenticates under a different key. */
  lemma DecryptWrongKey(k1: string, k2: string, p: string, n: Nonce)
    requires ValidKey(k1) && k1 != k2
    ensures Decrypt(k2, Encrypt(k1, p, n)) == None
  {
    var c := Encrypt(k1, p, n);
    assert c == VersionPrefix + k1 + n + p;
    assert SealingKey(c) == k1;
  }

  /** Law 3: a text that is not a token never authenticates. */
  lemma DecryptNonToken(k: string, c: string)
    requires !IsToken(c)
    ensures Decrypt(k, c) == None
  {
  }

  /** At most one key authenticates a given text. */
  lemma AuthenticatorUnique(k1: string, k2: string, c: string)
    requires Decrypt(k1, c).Some? && Decrypt(k2, c).Some?
    ensures k1 == k2 && Decrypt(k1, c) == Decrypt(k2, c)
  {
  }

  /** A key that authenticates a token sealed under `k` is `k`, and it yields the sealed plaintext. */
  lemma AuthenticatorOfEncrypt(k: string, k2: string, p: string, n: Nonce)
    requires ValidKey(k) && Decrypt(k2, Encrypt(k, p, n)).Some?
    ensures k2 == k && Decrypt(k2, Encrypt(k, p, n)) == Some(p)
  {
    if k2 != k {
      DecryptWrongKey(k, k2, p, n);
    }
    DecryptEncrypt(k, p, n);
  }

  /** A token is never equal to the plaintext it decrypts to. */
  lemma TokenIsNotPlaintext(k: string, c: string)
    requires Decrypt(k, c).Some?
    ensures Decrypt(k, c).value != c
  {
  }
}
