/**
 Key rotation, requirements/gen_encryption_key.py: a new key is added to
 the registry under the next auto-increment id, and `.env` is rewritten so
 that ENCRYPTION_KEY holds the key and ENCRYPTION_KEY_ID its id.
 */
module KeyRotation {
  import opened Types
  import opened Text
  import opened Lines
  import opened KeyRegistry
  import opened KeyConfig
  import opened CredentialStore

  const KeyPrefix: string := "ENCRYPTION_KEY="
  const IdPrefix: string := "ENCRYPTION_KEY_ID="

  function KeyLine(key: string): string {
    KeyPrefix + key + "\n"
  }

  function IdLine(idText: string): string {
    IdPrefix + idText + "\n"
  }

  /** No line starts with both prefixes: the id prefix has `_` where the key prefix has `=`. */
  lemma PrefixesExclusive(line: string)
    ensures !(StartsWith(line, KeyPrefix) && StartsWith(line, IdPrefix))
  {
    if StartsWith(line, KeyPrefix) {
      assert line[14] == KeyPrefix[14];
    }
  }

  /** The loop body of the `.env` rewrite on one line. */
  function RewriteKeyLine(line: string, key: string, idText: string): string {
    if StartsWith(line, KeyPrefix) then KeyLine(key)
    else if StartsWith(line, IdPrefix) then IdLine(idText)
    else line
  }

  predicate HasPrefixLine(lines: seq<string>, prefix: string) {
    exists i :: 0 <= i < |lines| && StartsWith(lines[i], prefix)
  }

  /**
   The `.env` rewrite: every ENCRYPTION_KEY= line carries the new key,
   every ENCRYPTION_KEY_ID= line the new id, and whichever of the two had
   no line is appended, the key first.
   */
  function RewriteKeyLines(lines: seq<string>, key: string, idText: string): (r: seq<string>)
    ensures |r| == |lines| + (if HasPrefixLine(lines, KeyPrefix) then 0 else 1)
                           + (if HasPrefixLine(lines, IdPrefix) then 0 else 1)
    ensures forall i :: 0 <= i < |lines| && StartsWith(lines[i], KeyPrefix) ==> r[i] == KeyLine(key)
    ensures forall i :: 0 <= i < |lines| && StartsWith(lines[i], IdPrefix) ==> r[i] == IdLine(idText)
    ensures forall i :: 0 <= i < |lines| && !StartsWith(lines[i], KeyPrefix) && !StartsWith(lines[i], IdPrefix) ==>
      r[i] == lines[i]
    ensures !HasPrefixLine(lines, KeyPrefix) ==> r[|lines|] == KeyLine(key)
    ensures !HasPrefixLine(lines, IdPrefix) ==> r[|r| - 1] == IdLine(idText)
  {
    var mapped := seq(|lines|, i requires 0 <= i < |lines| => RewriteKeyLine(lines[i], key, idText));
    forall i | 0 <= i < |lines|
      ensures StartsWith(lines[i], IdPrefix) ==> mapped[i] == IdLine(idText)
    {
      PrefixesExclusive(lines[i]);
    }
    mapped
      + (if HasPrefixLine(lines, KeyPrefix) then [] else [KeyLine(key)])
      + (if HasPrefixLine(lines, IdPrefix) then [] else [IdLine(idText)])
  }

  /** After the rewrite there is a key line and an id line, and every line with either prefix is the new one. */
  lemma RewriteKeyLinesSets(lines: seq<string>, key: string, idText: string)
    ensures var r := RewriteKeyLines(lines, key, idText);
      && KeyLine(key) in r && IdLine(idText) in r
      && (forall i :: 0 <= i < |r| && StartsWith(r[i], KeyPrefix) ==> r[i] == KeyLine(key))
      && (forall i :: 0 <= i < |r| && StartsWith(r[i], IdPrefix) ==> r[i] == IdLine(idText))
  {
    var r := RewriteKeyLines(lines, key, idText);
    if HasPrefixLine(lines, KeyPrefix) {
      var i :| 0 <= i < |lines| && StartsWith(lines[i], KeyPrefix);
      assert r[i] == KeyLine(key);
    }
    if HasPrefixLine(lines, IdPrefix) {
      var i :| 0 <= i < |lines| && StartsWith(lines[i], IdPrefix);
      assert r[i] == IdLine(idText);
    }
    forall i | 0 <= i < |r| && StartsWith(r[i], KeyPrefix)
      ensures r[i] == KeyLine(key)
    {
      PrefixesExclusive(r[i]);
      if i >= |lines| {
        NewLinePrefixes(key, idText);
      }
    }
    forall i | 0 <= i < |r| && StartsWith(r[i], IdPrefix)
      ensures r[i] == IdLine(idText)
    {
      PrefixesExclusive(r[i]);
      if i < |lines| {
        NewLinePrefixes(key, idText);
      }
    }
  }

  lemma NewLinePrefixes(key: string, idText: string)
    ensures StartsWith(KeyLine(key), KeyPrefix) && !StartsWith(KeyLine(key), IdPrefix)
    ensures StartsWith(IdLine(idText), IdPrefix) && !StartsWith(IdLine(idText), KeyPrefix)
  {
    assert KeyLine(key)[..|KeyPrefix|] == KeyPrefix;
    assert IdLine(idText)[..|IdPrefix|] == IdPrefix;
    PrefixesExclusive(KeyLine(key));
    PrefixesExclusive(IdLine(idText));
  }

  /** Rotating the file again with the same key and id changes nothing. */
  lemma RewriteKeyLinesIdempotent(lines: seq<string>, key: string, idText: string)
    ensures RewriteKeyLines(RewriteKeyLines(lines, key, idText), key, idText) == RewriteKeyLines(lines, key, idText)
  {
    var r := RewriteKeyLines(lines, key, idText);
    RewriteKeyLinesSets(lines, key, idText);
    var i :| 0 <= i < |r| && r[i] == KeyLine(key);
    var j :| 0 <= j < |r| && r[j] == IdLine(idText);
    NewLinePrefixes(key, idText);
    assert HasPrefixLine(r, KeyPrefix) && HasPrefixLine(r, IdPrefix);
  }

  /** The outcome of the script: the database, the `.env` text, and the id it reports. */
  datatype Rotation = Rotation(db: Db, file: Option<string>, keyId: Option<int>)

  /**
   `main()` of the script with the generated key `newKey`. A connection
   failure is caught and printed, leaving everything as it was; a missing
   `.env` is created empty first.
   */
  function RotateKey(db: Db, file: Option<string>, newKey: string): (r: Rotation)
    requires Valid(db.registry)
    ensures !db.online ==> r == Rotation(db, file, None)
    ensures db.online ==>
      && r.keyId.Some? && r.keyId.value >= 1
      && r.db.registry.keys == db.registry.keys[r.keyId.value := newKey]
      && r.keyId.value !in db.registry.keys
      && NewestId(r.db.registry) == r.keyId
      && Valid(r.db.registry) && r.db.registry.queryable == db.registry.queryable
      && r.db.creds == db.creds && r.db.online
      && r.file == Some(Concat(RewriteKeyLines(ReadLines(if file.Some? then file.value else ""),
                                               newKey, NatToDecimal(r.keyId.value))))
  {
    if !db.online then Rotation(db, file, None)
    else
      var (reg, id) := Add(db.registry, newKey);
      var lines := ReadLines(if file.Some? then file.value else "");
      Rotation(db.(registry := reg), Some(Concat(RewriteKeyLines(lines, newKey, NatToDecimal(id)))), Some(id))
  }

  /**
   The rotated key becomes the active one: a process that reads back the
   id the script wrote resolves the new key from the registry, and
   `encrypt_str` seals under it.
   */
  lemma RotationActivatesKey(db: Db, file: Option<string>, newKey: string, envKey: Option<string>)
    requires Valid(db.registry) && db.online && db.registry.queryable && newKey != ""
    ensures
      var r := RotateKey(db, file, newKey);
      var env := ProcessEnv(Some(NatToDecimal(r.keyId.value)), envKey);
      ResolveKey(r.db.registry, env, None) == Success(Resolved(newKey, ActiveId(r.keyId.value)))
  {
    var r := RotateKey(db, file, newKey);
    var id := r.keyId.value;
    var env := ProcessEnv(Some(NatToDecimal(id)), envKey);
    ParseNatToDecimal(id);
    assert ActiveIdOf(env) == Some(id);
    ActiveIdBeatsNewest(r.db.registry, env, None, id);
  }

  // ----- The last line of the file -----

  /** The lines of a key and id line: each is a single line when key and id have no newline. */
  lemma NewLinesAreLines(key: string, idText: string)
    requires '\n' !in key && '\n' !in idText
    ensures IsLine(KeyLine(key)) && EndsWithNewline(KeyLine(key))
    ensures IsLine(IdLine(idText)) && EndsWithNewline(IdLine(idText))
  {
    var k := KeyLine(key);
    assert forall j :: 0 <= j < |KeyPrefix| ==> k[j] == KeyPrefix[j];
    assert forall j :: |KeyPrefix| <= j < |k| - 1 ==> k[j] == key[j - |KeyPrefix|];
    var d := IdLine(idText);
    assert forall j :: 0 <= j < |IdPrefix| ==> d[j] == IdPrefix[j];
    assert forall j :: |IdPrefix| <= j < |d| - 1 ==> d[j] == idText[j - |IdPrefix|];
  }

  /**
   As written, a file whose last line has no newline gets the new key glued
   onto that line: `DB_PORT=3306` becomes `DB_PORT=3306ENCRYPTION_KEY=...`,
   and when the file is read again no line assigns ENCRYPTION_KEY.
   */
  lemma RotationGluesLastLine(file: string, key: string, idText: string)
    requires file == "DB_PORT=3306" && '\n' !in key && '\n' !in idText
    ensures
      var out := Concat(RewriteKeyLines(ReadLines(file), key, idText));
      && ReadLines(out) == [file + KeyLine(key), IdLine(idText)]
      && !HasPrefixLine(ReadLines(out), KeyPrefix)
  {
    assert |file| > 0 && file[0] == 'D';
    assert forall j :: 0 <= j < |file| ==> file[j] != '\n';
    ReadUnterminated(file);
    GluedRewrite(file, key, idText);
  }

  /** The rewrite of a one-line file whose line assigns neither variable and lacks its newline. */
  lemma GluedRewrite(last: string, key: string, idText: string)
    requires |last| > 0 && last[0] != 'E' && forall j :: 0 <= j < |last| ==> last[j] != '\n'
    requires '\n' !in key && '\n' !in idText
    ensures
      var out := Concat(RewriteKeyLines([last], key, idText));
      && ReadLines(out) == [last + KeyLine(key), IdLine(idText)]
      && !HasPrefixLine(ReadLines(out), KeyPrefix)
  {
    assert !StartsWith(last, KeyPrefix) && !StartsWith(last, IdPrefix);
    assert !HasPrefixLine([last], KeyPrefix) && !HasPrefixLine([last], IdPrefix);
    var r := RewriteKeyLines([last], key, idText);
    assert r == [last, KeyLine(key), IdLine(idText)];
    GluedConcat(last, KeyLine(key), IdLine(idText));
    GluedRead(last, key, idText);
  }

  lemma GluedConcat(a: string, b: string, c: string)
    ensures Concat([a, b, c]) == a + b + c
  {
    ConcatAround([a], b, [c]);
    assert [a] + [b] + [c] == [a, b, c];
    assert Concat([a]) == a + Concat([]);
    assert Concat([c]) == c + Concat([]);
  }

  lemma GluedRead(last: string, key: string, idText: string)
    requires |last| > 0 && last[0] != 'E' && forall j :: 0 <= j < |last| ==> last[j] != '\n'
    requires '\n' !in key && '\n' !in idText
    ensures ReadLines(last + KeyLine(key) + IdLine(idText)) == [last + KeyLine(key), IdLine(idText)]
    ensures !HasPrefixLine([last + KeyLine(key), IdLine(idText)], KeyPrefix)
  {
    var glued := last + KeyLine(key);
    var idl := IdLine(idText);
    NewLinesAreLines(key, idText);
    GluedIsLine(last, KeyLine(key));
    ReadTwoLines(glued, idl);
    GluedHidesKey(last, key, idText);
  }

  lemma ReadTwoLines(a: string, b: string)
    requires IsLine(a) && EndsWithNewline(a) && IsLine(b) && EndsWithNewline(b)
    ensures ReadLines(a + b) == [a, b]
  {
    ReadLinesAppend(a, b);
    ReadLinesOfLine(a);
    ReadLinesOfLine(b);
  }

  lemma GluedHidesKey(last: string, key: string, idText: string)
    requires |last| > 0 && last[0] != 'E'
    ensures !HasPrefixLine([last + KeyLine(key), IdLine(idText)], KeyPrefix)
  {
    var lines := [last + KeyLine(key), IdLine(idText)];
    assert !StartsWith(lines[0], KeyPrefix) by {
      assert lines[0][0] == last[0];
    }
    NewLinePrefixes(key, idText);
    assert forall i :: 0 <= i < 2 ==> !StartsWith(lines[i], KeyPrefix);
  }

  /** A line glued after text without a newline is still a single line. */
  lemma GluedIsLine(last: string, l: string)
    requires forall j :: 0 <= j < |last| ==> last[j] != '\n'
    requires IsLine(l) && EndsWithNewline(l)
    ensures IsLine(last + l) && EndsWithNewline(last + l)
  {
    var g := last + l;
    assert forall j :: 0 <= j < |last| ==> g[j] == last[j];
    assert forall j :: |last| <= j < |g| ==> g[j] == l[j - |last|];
  }

  /** The evidently intended rewrite: a last line without a newline is finished first. */
  function RotateKeyFixed(db: Db, file: Option<string>, newKey: string): (r: Rotation)
    requires Valid(db.registry)
    ensures r.db == RotateKey(db, file, newKey).db && r.keyId == RotateKey(db, file, newKey).keyId
    ensures file.Some? && AtLineStart(file.value) ==> r == RotateKey(db, file, newKey)
    ensures db.online ==>
      r.file == Some(Concat(RewriteKeyLines(FinishLastLine(ReadLines(if file.Some? then file.value else "")),
                                            newKey, NatToDecimal(r.keyId.value))))
  {
    if !db.online then Rotation(db, file, None)
    else
      var (reg, id) := Add(db.registry, newKey);
      var content := if file.Some? then file.value else "";
      var lines := ReadLines(content);
      ReadLinesShape(content);
      assert AtLineStart(content) ==> FinishLastLine(lines) == lines;
      Rotation(db.(registry := reg), Some(Concat(RewriteKeyLines(FinishLastLine(lines), newKey, NatToDecimal(id)))), Some(id))
  }

  /**
   With the correction, reading the rotated file back always finds the
   line `ENCRYPTION_KEY=<new key>` and the line `ENCRYPTION_KEY_ID=<new id>`.
   */
  lemma RotateKeyFixedReadsBack(db: Db, file: Option<string>, newKey: string)
    requires Valid(db.registry) && db.online && '\n' !in newKey
    ensures
      var r := RotateKeyFixed(db, file, newKey);
      && KeyLine(newKey) in ReadLines(r.file.value)
      && IdLine(NatToDecimal(r.keyId.value)) in ReadLines(r.file.value)
  {
    var r := RotateKeyFixed(db, file, newKey);
    var idText := NatToDecimal(r.keyId.value);
    assert '\n' !in idText by {
      assert forall j :: 0 <= j < |idText| ==> IsDigit(idText[j]);
    }
    FixedRewriteReadsBack(if file.Some? then file.value else "", newKey, idText);
  }

  lemma FixedRewriteReadsBack(content: string, key: string, idText: string)
    requires '\n' !in key && '\n' !in idText
    ensures
      var out := RewriteKeyLines(FinishLastLine(ReadLines(content)), key, idText);
      KeyLine(key) in ReadLines(Concat(out)) && IdLine(idText) in ReadLines(Concat(out))
  {
    var lines := FinishLastLine(ReadLines(content));
    var out := RewriteKeyLines(lines, key, idText);
    FinishedTerminated(content);
    NewLinesAreLines(key, idText);
    forall j | 0 <= j < |out|
      ensures EndsWithNewline(out[j])
    {
      if j < |lines| && !StartsWith(lines[j], KeyPrefix) && !StartsWith(lines[j], IdPrefix) {
        assert out[j] == lines[j];
      }
    }
    RewriteKeyLinesSets(lines, key, idText);
    var i :| 0 <= i < |out| && out[i] == KeyLine(key);
    var k :| 0 <= k < |out| && out[k] == IdLine(idText);
    ReadBackContains(out, i);
    ReadBackContains(out, k);
  }
}
