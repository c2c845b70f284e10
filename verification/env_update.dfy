/**
 `update_env` of src/mstock_auth_api_cli.py: rewrites the `.env` file so
 that every key of an update dict is assigned its new value, editing the
 lines that name the key and appending a line for each key no line
 mentions.
 */
module EnvUpdate {
  import opened Types
  import opened Text
  import opened Lines

  predicate DistinctKeys(u: seq<(string, string)>) {
    forall i, j :: 0 <= i < j < |u| ==> u[i].0 != u[j].0
  }

  /** The `updates` dict: its items in insertion order, keys distinct. */
  type Updates = u: seq<(string, string)> | DistinctKeys(u) witness []

  /** A variable name as the CLI uses them: no `=` and no whitespace anywhere. */
  predicate KeyName(k: string) {
    forall i :: 0 <= i < |k| ==> k[i] != '=' && !IsSpace(k[i])
  }

  predicate KeyNames(u: seq<(string, string)>) {
    forall i :: 0 <= i < |u| ==> KeyName(u[i].0)
  }

  /** `updates.get(k)`. */
  function Lookup(u: seq<(string, string)>, k: string): (r: Option<string>)
    ensures r.None? <==> forall i :: 0 <= i < |u| ==> u[i].0 != k
    ensures DistinctKeys(u) ==> forall i :: 0 <= i < |u| && u[i].0 == k ==> r == Some(u[i].1)
  {
    if |u| == 0 then None
    else if u[0].0 == k then Some(u[0].1)
    else Lookup(u[1..], k)
  }

  /** `line.split("=")[0].strip()`: the key a line assigns. */
  function LineKey(line: string): string {
    Strip(BeforeFirst(line, '='))
  }

  /** The line `f"{key}={value}\n"`. */
  function Assignment(k: string, v: string): string {
    k + "=" + v + "\n"
  }

  /** The first loop of `update_env` on one line. */
  function RewriteLine(line: string, u: Updates): string {
    var k := LineKey(line);
    if Lookup(u, k).Some? then Assignment(k, Lookup(u, k).value) else line
  }

  function RewriteLines(lines: seq<string>, u: Updates): (r: seq<string>)
    ensures |r| == |lines|
    ensures forall i :: 0 <= i < |lines| ==> r[i] == RewriteLine(lines[i], u)
  {
    seq(|lines|, i requires 0 <= i < |lines| => RewriteLine(lines[i], u))
  }

  /** `any(l.startswith(f"{key}=") for l in lines)`. */
  predicate HasAssignment(lines: seq<string>, k: string) {
    exists j :: 0 <= j < |lines| && StartsWith(lines[j], k + "=")
  }

  lemma HasAssignmentExtends(acc: seq<string>, r: seq<string>, k: string)
    requires |acc| <= |r| && r[..|acc|] == acc && HasAssignment(acc, k)
    ensures HasAssignment(r, k)
  {
    var j :| 0 <= j < |acc| && StartsWith(acc[j], k + "=");
    assert r[j] == acc[j];
  }

  /** The second loop of `update_env`: the check sees the lines appended so far. */
  function AppendMissing(acc: seq<string>, u: Updates): (r: seq<string>)
    ensures |acc| <= |r| <= |acc| + |u| && r[..|acc|] == acc
    ensures forall i :: 0 <= i < |u| ==> HasAssignment(r, u[i].0)
    ensures forall j :: |acc| <= j < |r| ==> exists i :: 0 <= i < |u| && r[j] == Assignment(u[i].0, u[i].1)
    decreases |u|
  {
    if |u| == 0 then acc
    else
      var k, v := u[0].0, u[0].1;
      var acc' := if HasAssignment(acc, k) then acc else acc + [Assignment(k, v)];
      var r := AppendMissing(acc', u[1..]);
      AppendMissingPrefix(acc, acc', r, Assignment(k, v));
      AppendMissingAssigns(acc, acc', r, u);
      AppendMissingOrigin(acc, acc', r, u);
      r
  }

  /** The step of `AppendMissing` keeps the lines it started from. */
  lemma AppendMissingPrefix(acc: seq<string>, acc': seq<string>, r: seq<string>, a: string)
    requires acc' == acc || acc' == acc + [a]
    requires |acc'| <= |r| && r[..|acc'|] == acc'
    ensures |acc| <= |r| && r[..|acc|] == acc
  {
    assert r[..|acc|] == r[..|acc'|][..|acc|];
  }

  /** After the step of `AppendMissing`, every key of the dict is assigned. */
  lemma AppendMissingAssigns(acc: seq<string>, acc': seq<string>, r: seq<string>, u: Updates)
    requires |u| > 0
    requires acc' == if HasAssignment(acc, u[0].0) then acc else acc + [Assignment(u[0].0, u[0].1)]
    requires |acc'| <= |r| && r[..|acc'|] == acc'
    requires forall i :: 0 <= i < |u[1..]| ==> HasAssignment(r, u[1..][i].0)
    ensures forall i :: 0 <= i < |u| ==> HasAssignment(r, u[i].0)
  {
    AppendedAssigns(acc, u[0].0, u[0].1);
    HasAssignmentExtends(acc', r, u[0].0);
    forall i | 1 <= i < |u|
      ensures HasAssignment(r, u[i].0)
    {
      assert u[i] == u[1..][i - 1];
    }
  }

  /** Every line the step of `AppendMissing` adds assigns an entry of the dict. */
  lemma AppendMissingOrigin(acc: seq<string>, acc': seq<string>, r: seq<string>, u: Updates)
    requires |u| > 0
    requires acc' == if HasAssignment(acc, u[0].0) then acc else acc + [Assignment(u[0].0, u[0].1)]
    requires |acc'| <= |r| && r[..|acc'|] == acc'
    requires forall j :: |acc'| <= j < |r| ==> exists i :: 0 <= i < |u[1..]| && r[j] == Assignment(u[1..][i].0, u[1..][i].1)
    ensures forall j :: |acc| <= j < |r| ==> exists i :: 0 <= i < |u| && r[j] == Assignment(u[i].0, u[i].1)
  {
    forall j | |acc| <= j < |r|
      ensures exists i :: 0 <= i < |u| && r[j] == Assignment(u[i].0, u[i].1)
    {
      if j < |acc'| {
        assert r[j] == r[..|acc'|][j] == Assignment(u[0].0, u[0].1);
      } else {
        var i :| 0 <= i < |u[1..]| && r[j] == Assignment(u[1..][i].0, u[1..][i].1);
        assert u[1..][i] == u[i + 1];
      }
    }
  }

  lemma AppendedAssigns(acc: seq<string>, k: string, v: string)
    ensures HasAssignment(acc + [Assignment(k, v)], k)
  {
    AssignmentStarts(k, v);
    assert (acc + [Assignment(k, v)])[|acc|] == Assignment(k, v);
  }

  /** `update_env` on the lines of an existing file. */
  function UpdateEnv(lines: seq<string>, u: Updates): (r: seq<string>)
    ensures |lines| <= |r| <= |lines| + |u|
    ensures forall i :: 0 <= i < |lines| && Lookup(u, LineKey(lines[i])).Some? ==>
      r[i] == Assignment(LineKey(lines[i]), Lookup(u, LineKey(lines[i])).value)
    ensures forall i :: 0 <= i < |lines| && Lookup(u, LineKey(lines[i])).None? ==> r[i] == lines[i]
    ensures forall i :: 0 <= i < |u| ==> HasAssignment(r, u[i].0)
    ensures forall j :: |lines| <= j < |r| ==> exists i :: 0 <= i < |u| && r[j] == Assignment(u[i].0, u[i].1)
  {
    var rewritten := RewriteLines(lines, u);
    var r := AppendMissing(rewritten, u);
    assert forall i :: 0 <= i < |lines| ==> r[i] == rewritten[i];
    r
  }

  /**
   `update_env` on the file: nothing happens when `.env` does not exist;
   otherwise the file is read with `readlines` and written back with
   `writelines`.
   */
  function UpdateEnvFile(file: Option<string>, u: Updates): (r: Option<string>)
    ensures r.None? <==> file.None?
    ensures r.Some? ==> r.value == Concat(UpdateEnv(ReadLines(file.value), u))
  {
    if file.None? then None else Some(Concat(UpdateEnv(ReadLines(file.value), u)))
  }

  // ----- A declarative reading of the result -----

  /** Some line of `lines` is keyed `k`. */
  predicate Named(lines: seq<string>, k: string) {
    exists j :: 0 <= j < |lines| && LineKey(lines[j]) == k
  }

  /** One assignment per update entry whose key no line names, in dict order. */
  function Unnamed(lines: seq<string>, u: seq<(string, string)>): seq<string> {
    if |u| == 0 then []
    else (if Named(lines, u[0].0) then [] else [Assignment(u[0].0, u[0].1)]) + Unnamed(lines, u[1..])
  }

  /** One assignment per entry whose key no line starts by assigning, in dict order. */
  function MissingFrom(acc: seq<string>, u: seq<(string, string)>): seq<string> {
    if |u| == 0 then []
    else (if HasAssignment(acc, u[0].0) then [] else [Assignment(u[0].0, u[0].1)]) + MissingFrom(acc, u[1..])
  }

  /** An assignment line starts with `k2=` only when it assigns `k2`. */
  lemma AssignmentPrefix(k: string, v: string, k2: string)
    requires '=' !in k && '=' !in k2
    requires StartsWith(Assignment(k, v), k2 + "=")
    ensures k == k2
  {
    var a := Assignment(k, v);
    var p := k2 + "=";
    assert a[..|p|] == p;
    assert forall i :: 0 <= i < |k| ==> a[i] == k[i];
    assert a[|k|] == '=' && p[|k2|] == '=';
    assert forall i :: 0 <= i < |k2| ==> p[i] == k2[i];
    assert forall i :: 0 <= i < |p| ==> a[i] == p[i];
  }

  lemma KeyNameFacts(k: string)
    requires KeyName(k)
    ensures '=' !in k && Strip(k) == k
  {
    StripUnchanged(k);
  }

  /** The key of an assignment line is the key assigned. */
  lemma LineKeyOfAssignment(k: string, v: string)
    requires '=' !in k && Strip(k) == k
    ensures LineKey(Assignment(k, v)) == k
  {
    AssignmentShape(k, v);
    KeyOfAssignment(k, v + "\n");
  }

  lemma AssignmentShape(k: string, v: string)
    ensures Assignment(k, v) == k + "=" + (v + "\n")
  {
  }

  /** A line key has no `=` and is already stripped. */
  lemma LineKeyFacts(line: string)
    ensures '=' !in LineKey(line) && Strip(LineKey(line)) == LineKey(line)
  {
    StripKeepsOut(BeforeFirst(line, '='), '=');
    StripIdempotent(BeforeFirst(line, '='));
  }

  /** Appending a line that assigns none of the keys leaves the missing entries unchanged. */
  lemma {:induction false} MissingFromIgnores(acc: seq<string>, line: string, u: seq<(string, string)>)
    requires forall i :: 0 <= i < |u| ==> !StartsWith(line, u[i].0 + "=")
    ensures MissingFrom(acc + [line], u) == MissingFrom(acc, u)
    decreases |u|
  {
    if |u| > 0 {
      var k := u[0].0;
      assert HasAssignment(acc + [line], k) == HasAssignment(acc, k) by {
        if HasAssignment(acc + [line], k) {
          var j :| 0 <= j < |acc| + 1 && StartsWith((acc + [line])[j], k + "=");
          assert j < |acc|;
          assert (acc + [line])[j] == acc[j];
        }
        if HasAssignment(acc, k) {
          HasAssignmentExtends(acc, acc + [line], k);
        }
      }
      MissingFromIgnores(acc, line, u[1..]);
    }
  }

  /** The second loop appends exactly the entries whose key is assigned by no earlier line. */
  lemma {:induction false} AppendMissingIsFilter(acc: seq<string>, u: Updates)
    requires KeyNames(u)
    ensures AppendMissing(acc, u) == acc + MissingFrom(acc, u)
    decreases |u|
  {
    if |u| == 0 {
      assert acc + [] == acc;
    } else {
      var k, v := u[0].0, u[0].1;
      var tail: Updates := u[1..];
      TailKeyNames(u);
      AppendMissingStep(acc, u);
      MissingFromStep(acc, u);
      if HasAssignment(acc, k) {
        AppendMissingIsFilter(acc, tail);
        assert [] + MissingFrom(acc, tail) == MissingFrom(acc, tail);
      } else {
        var line := Assignment(k, v);
        EntryAssignsNoOther(u);
        AppendMissingIsFilter(acc + [line], tail);
        MissingFromIgnores(acc, line, tail);
        AppendAssoc(acc, line, MissingFrom(acc, tail));
      }
    }
  }

  lemma TailKeyNames(u: Updates)
    requires |u| > 0 && KeyNames(u)
    ensures KeyNames(u[1..]) && DistinctKeys(u[1..])
  {
    assert forall i :: 0 <= i < |u[1..]| ==> u[1..][i] == u[i + 1];
  }

  lemma AppendMissingStep(acc: seq<string>, u: Updates)
    requires |u| > 0
    ensures AppendMissing(acc, u) ==
      AppendMissing(if HasAssignment(acc, u[0].0) then acc else acc + [Assignment(u[0].0, u[0].1)], u[1..])
  {
  }

  lemma MissingFromStep(acc: seq<string>, u: seq<(string, string)>)
    requires |u| > 0
    ensures MissingFrom(acc, u) ==
      (if HasAssignment(acc, u[0].0) then [] else [Assignment(u[0].0, u[0].1)]) + MissingFrom(acc, u[1..])
  {
  }

  lemma AppendAssoc(acc: seq<string>, line: string, rest: seq<string>)
    ensures (acc + [line]) + rest == acc + ([line] + rest)
  {
  }

  /** The line written for the first entry assigns none of the later keys. */
  lemma EntryAssignsNoOther(u: Updates)
    requires |u| > 0 && KeyNames(u)
    ensures forall i :: 1 <= i < |u| ==> !StartsWith(Assignment(u[0].0, u[0].1), u[i].0 + "=")
    ensures forall i :: 0 <= i < |u[1..]| ==> !StartsWith(Assignment(u[0].0, u[0].1), u[1..][i].0 + "=")
  {
    forall i | 1 <= i < |u|
      ensures !StartsWith(Assignment(u[0].0, u[0].1), u[i].0 + "=")
    {
      KeyNameFacts(u[0].0);
      KeyNameFacts(u[i].0);
      if StartsWith(Assignment(u[0].0, u[0].1), u[i].0 + "=") {
        AssignmentPrefix(u[0].0, u[0].1, u[i].0);
      }
    }
    assert forall i :: 0 <= i < |u[1..]| ==> u[1..][i] == u[i + 1];
  }

  /** A rewritten line that starts by assigning `k` came from a line keyed `k`. */
  lemma AssigningLineKey(line: string, u: Updates, k: string)
    requires KeyName(k) && StartsWith(RewriteLine(line, u), k + "=")
    ensures LineKey(line) == k
  {
    var key := LineKey(line);
    KeyNameFacts(k);
    if Lookup(u, key).Some? {
      LineKeyFacts(line);
      AssignmentPrefix(key, Lookup(u, key).value, k);
    } else {
      KeptLineKey(line, k);
    }
  }

  /** A line that starts with `k=` is keyed `k`. */
  lemma KeptLineKey(line: string, k: string)
    requires KeyName(k) && StartsWith(line, k + "=")
    ensures LineKey(line) == k
  {
    KeyNameFacts(k);
    var rest := line[|k| + 1..];
    TakeDrop(line, |k| + 1);
    KeyOfAssignment(k, rest);
  }

  lemma AssignmentStarts(k: string, v: string)
    ensures StartsWith(Assignment(k, v), k + "=")
  {
    assert Assignment(k, v) == (k + "=") + (v + "\n");
  }

  /** After the first loop, a key is assigned by some line exactly when some input line was keyed by it. */
  lemma RewrittenAssigns(lines: seq<string>, u: Updates, k: string)
    requires KeyName(k) && Lookup(u, k).Some?
    ensures HasAssignment(RewriteLines(lines, u), k) <==> Named(lines, k)
  {
    var r := RewriteLines(lines, u);
    if HasAssignment(r, k) {
      var j :| 0 <= j < |r| && StartsWith(r[j], k + "=");
      AssigningLineKey(lines[j], u, k);
    }
    if Named(lines, k) {
      var j :| 0 <= j < |lines| && LineKey(lines[j]) == k;
      assert r[j] == Assignment(k, Lookup(u, k).value);
      AssignmentStarts(k, Lookup(u, k).value);
    }
  }

  lemma {:induction false} MissingAfterRewrite(lines: seq<string>, u: Updates, w: seq<(string, string)>)
    requires KeyNames(w) && forall i :: 0 <= i < |w| ==> Lookup(u, w[i].0).Some?
    ensures MissingFrom(RewriteLines(lines, u), w) == Unnamed(lines, w)
    decreases |w|
  {
    if |w| > 0 {
      RewrittenAssigns(lines, u, w[0].0);
      MissingAfterRewrite(lines, u, w[1..]);
    }
  }

  /**
   The output of `update_env`, declaratively: every input line, rewritten
   when its key is updated, followed by one assignment for each updated
   key that no input line names, in dict order.
   */
  lemma UpdateEnvCharacterized(lines: seq<string>, u: Updates)
    requires KeyNames(u)
    ensures UpdateEnv(lines, u) == RewriteLines(lines, u) + Unnamed(lines, u)
  {
    AppendMissingIsFilter(RewriteLines(lines, u), u);
    forall i | 0 <= i < |u|
      ensures Lookup(u, u[i].0).Some?
    {
    }
    MissingAfterRewrite(lines, u, u);
  }

  /** A rewritten line keeps its key. */
  lemma RewriteLineKey(line: string, u: Updates)
    ensures LineKey(RewriteLine(line, u)) == LineKey(line)
  {
    var k := LineKey(line);
    if Lookup(u, k).Some? {
      LineKeyFacts(line);
      LineKeyOfAssignment(k, Lookup(u, k).value);
    }
  }

  /** A rewritten line is a fixed point of the rewrite. */
  lemma RewriteLineStable(line: string, u: Updates)
    ensures RewriteLine(RewriteLine(line, u), u) == RewriteLine(line, u)
  {
    RewriteLineKey(line, u);
  }

  /** Every appended line is the assignment of some entry. */
  lemma {:induction false} UnnamedLines(lines: seq<string>, u: seq<(string, string)>)
    ensures forall j :: 0 <= j < |Unnamed(lines, u)| ==>
      exists i :: 0 <= i < |u| && Unnamed(lines, u)[j] == Assignment(u[i].0, u[i].1)
    decreases |u|
  {
    if |u| > 0 {
      var tail := u[1..];
      UnnamedLines(lines, tail);
      var n := Unnamed(lines, u);
      var head := if Named(lines, u[0].0) then [] else [Assignment(u[0].0, u[0].1)];
      assert n == head + Unnamed(lines, tail);
      forall j | 0 <= j < |n|
        ensures exists i :: 0 <= i < |u| && n[j] == Assignment(u[i].0, u[i].1)
      {
        if j < |head| {
          assert n[j] == Assignment(u[0].0, u[0].1);
        } else {
          assert n[j] == Unnamed(lines, tail)[j - |head|];
          var i :| 0 <= i < |tail| && Unnamed(lines, tail)[j - |head|] == Assignment(tail[i].0, tail[i].1);
          assert tail[i] == u[i + 1];
          assert n[j] == Assignment(u[i + 1].0, u[i + 1].1);
        }
      }
    } else {
      assert Unnamed(lines, u) == [];
    }
  }

  /** Every line `update_env` writes for an entry reads back as that entry's key and value. */
  lemma AssignmentOfEntry(u: Updates, i: nat)
    requires KeyNames(u) && i < |u|
    ensures LineKey(Assignment(u[i].0, u[i].1)) == u[i].0
    ensures Lookup(u, u[i].0) == Some(u[i].1)
  {
    KeyNameFacts(u[i].0);
    LineKeyOfAssignment(u[i].0, u[i].1);
  }

  /** Every key of `u` names some line of the output. */
  lemma UpdatedKeysNamed(lines: seq<string>, u: Updates, i: nat)
    requires KeyNames(u) && i < |u|
    ensures Named(UpdateEnv(lines, u), u[i].0)
  {
    var out := UpdateEnv(lines, u);
    var k := u[i].0;
    var r := RewriteLines(lines, u);
    var n := Unnamed(lines, u);
    UpdateEnvCharacterized(lines, u);
    AssignmentOfEntry(u, i);
    if Named(lines, k) {
      var j :| 0 <= j < |lines| && LineKey(lines[j]) == k;
      RewriteLineKey(lines[j], u);
      assert LineKey(out[j]) == k;
    } else {
      assert UnnamedHas(lines, u, i) by {
        UnnamedContains(lines, u, i);
      }
      var j :| 0 <= j < |n| && n[j] == Assignment(k, u[i].1);
      assert out[|r| + j] == n[j];
    }
  }

  predicate UnnamedHas(lines: seq<string>, u: seq<(string, string)>, i: nat)
    requires i < |u|
  {
    exists j :: 0 <= j < |Unnamed(lines, u)| && Unnamed(lines, u)[j] == Assignment(u[i].0, u[i].1)
  }

  lemma {:induction false} UnnamedContains(lines: seq<string>, u: seq<(string, string)>, i: nat)
    requires i < |u| && !Named(lines, u[i].0)
    ensures UnnamedHas(lines, u, i)
    decreases |u|
  {
    var head := if Named(lines, u[0].0) then [] else [Assignment(u[0].0, u[0].1)];
    var rest := Unnamed(lines, u[1..]);
    UnnamedStep(lines, u);
    if i == 0 {
      assert Unnamed(lines, u)[0] == Assignment(u[0].0, u[0].1);
    } else {
      assert u[1..][i - 1] == u[i];
      UnnamedContains(lines, u[1..], i - 1);
      var j :| 0 <= j < |rest| && rest[j] == Assignment(u[i].0, u[i].1);
      ConcatIndex(head, rest, j);
    }
  }

  lemma ConcatIndex(head: seq<string>, rest: seq<string>, j: nat)
    requires j < |rest|
    ensures (head + rest)[|head| + j] == rest[j]
  {
  }

  lemma UnnamedStep(lines: seq<string>, u: seq<(string, string)>)
    requires |u| > 0
    ensures Unnamed(lines, u) ==
      (if Named(lines, u[0].0) then [] else [Assignment(u[0].0, u[0].1)]) + Unnamed(lines, u[1..])
  {
  }

  /** When every key is already named, nothing is appended. */
  lemma {:induction false} UnnamedEmpty(lines: seq<string>, w: seq<(string, string)>)
    requires forall i :: 0 <= i < |w| ==> Named(lines, w[i].0)
    ensures Unnamed(lines, w) == []
    decreases |w|
  {
    if |w| > 0 {
      assert Named(lines, w[0].0);
      UnnamedEmpty(lines, w[1..]);
    }
  }

  /** The first loop leaves the output of `update_env` as it is. */
  lemma OutputStable(lines: seq<string>, u: Updates)
    requires KeyNames(u)
    ensures RewriteLines(UpdateEnv(lines, u), u) == UpdateEnv(lines, u)
  {
    var out := UpdateEnv(lines, u);
    var r := RewriteLines(lines, u);
    var n := Unnamed(lines, u);
    UpdateEnvCharacterized(lines, u);
    UnnamedLines(lines, u);
    forall j | 0 <= j < |out|
      ensures RewriteLine(out[j], u) == out[j]
    {
      if j < |r| {
        RewriteLineStable(lines[j], u);
      } else {
        var i :| 0 <= i < |u| && n[j - |r|] == Assignment(u[i].0, u[i].1);
        AssignmentOfEntry(u, i);
      }
    }
  }

  /** Running `update_env` twice with the same dict changes nothing the second time. */
  lemma UpdateEnvIdempotent(lines: seq<string>, u: Updates)
    requires KeyNames(u)
    ensures UpdateEnv(UpdateEnv(lines, u), u) == UpdateEnv(lines, u)
  {
    var out := UpdateEnv(lines, u);
    UpdateEnvCharacterized(out, u);
    OutputStable(lines, u);
    forall i | 0 <= i < |u|
      ensures Named(out, u[i].0)
    {
      UpdatedKeysNamed(lines, u, i);
    }
    UnnamedEmpty(out, u);
  }

  /**
   After `update_env`, every line keyed by an updated key reads exactly
   `key=value`, and there is at least one such line.
   */
  lemma UpdatedKeysRead(lines: seq<string>, u: Updates, i: nat)
    requires KeyNames(u) && i < |u|
    ensures Named(UpdateEnv(lines, u), u[i].0)
    ensures forall j :: 0 <= j < |UpdateEnv(lines, u)| && LineKey(UpdateEnv(lines, u)[j]) == u[i].0 ==>
      UpdateEnv(lines, u)[j] == Assignment(u[i].0, u[i].1)
  {
    var out := UpdateEnv(lines, u);
    var r := RewriteLines(lines, u);
    var n := Unnamed(lines, u);
    UpdatedKeysNamed(lines, u, i);
    UpdateEnvCharacterized(lines, u);
    UnnamedLines(lines, u);
    AssignmentOfEntry(u, i);
    forall j | 0 <= j < |out| && LineKey(out[j]) == u[i].0
      ensures out[j] == Assignment(u[i].0, u[i].1)
    {
      if j < |r| {
        RewriteLineKey(lines[j], u);
      } else {
        var i' :| 0 <= i' < |u| && n[j - |r|] == Assignment(u[i'].0, u[i'].1);
        AssignmentOfEntry(u, i');
      }
    }
  }

  // ----- The last line of the file -----

  /**
   As written, an entry appended to a file whose last line has no newline
   is glued onto that line: `A=1` updated with `B=2` becomes `A=1B=2`,
   which reads back as one line keyed `A`, and `B` is lost.
   */
  lemma UpdateEnvFileGluesLastLine(file: string, u: Updates, written: string)
    requires file == "A=1" && u == [("B", "2")] && written == "A=1B=2\n"
    ensures UpdateEnvFile(Some(file), u) == Some(written)
    ensures ReadLines(written) == [written]
    ensures !Named(ReadLines(written), "B")
  {
    SampleWritten(file, u);
    ReadGlued(written);
  }

  lemma SampleWritten(file: string, u: Updates)
    requires file == "A=1" && u == [("B", "2")]
    ensures UpdateEnvFile(Some(file), u) == Some("A=1B=2\n")
  {
    SampleFacts(file, u);
    AppendToUnterminated(file, u);
    SampleGlue(file, u[0].0, u[0].1);
  }

  lemma SampleFacts(file: string, u: Updates)
    requires file == "A=1" && u == [("B", "2")]
    ensures |file| > 0 && forall j :: 0 <= j < |file| ==> file[j] != '\n'
    ensures |u| == 1 && KeyName(u[0].0) && LineKey(file) != u[0].0
  {
    SampleLine(file);
    SampleKey(u[0].0);
    OneLetterKey(file);
  }

  lemma SampleLine(file: string)
    requires file == "A=1"
    ensures |file| == 3 && file[0] == 'A' && file[1] == '=' && file[2] == '1'
  {
  }

  lemma SampleKey(k: string)
    requires k == "B"
    ensures |k| == 1 && k[0] == 'B' && KeyName(k)
  {
  }

  /** A line `c=...` with `c` one visible character is keyed `c`. */
  lemma OneLetterKey(line: string)
    requires |line| >= 2 && line[1] == '=' && line[0] != '=' && !IsSpace(line[0])
    ensures LineKey(line) == [line[0]]
  {
    BeforeFirstAt(line, '=', 1);
    assert line[..1] == [line[0]];
    StripUnchanged([line[0]]);
  }

  lemma SampleGlue(file: string, k: string, v: string)
    requires file == "A=1" && k == "B" && v == "2"
    ensures file + Assignment(k, v) == "A=1B=2\n"
  {
  }

  /**
   `update_env` of one new key on a file of one line without a newline:
   the assignment is written straight after that line.
   */
  lemma AppendToUnterminated(last: string, u: Updates)
    requires |last| > 0 && forall j :: 0 <= j < |last| ==> last[j] != '\n'
    requires |u| == 1 && KeyName(u[0].0) && LineKey(last) != u[0].0
    ensures UpdateEnvFile(Some(last), u) == Some(last + Assignment(u[0].0, u[0].1))
  {
    var a := Assignment(u[0].0, u[0].1);
    ReadUnterminated(last);
    UpdateEnvCharacterized([last], u);
    RewriteOneLine(last, u);
    UnnamedOne(last, u);
    assert [last] + [a] == [last, a];
    ConcatPair(last, a);
  }

  /** A line whose key no entry names is kept. */
  lemma RewriteOneLine(last: string, u: Updates)
    requires |u| == 1 && LineKey(last) != u[0].0
    ensures RewriteLines([last], u) == [last]
  {
    assert Lookup(u, LineKey(last)).None?;
    assert RewriteLines([last], u)[0] == RewriteLine(last, u);
  }

  /** The one entry, unnamed by the one line, is appended. */
  lemma UnnamedOne(last: string, u: Updates)
    requires |u| == 1 && LineKey(last) != u[0].0
    ensures Unnamed([last], u) == [Assignment(u[0].0, u[0].1)]
  {
    assert !Named([last], u[0].0);
    UnnamedStep([last], u);
    assert u[1..] == [];
    assert Unnamed([last], u[1..]) == [];
  }

  lemma ConcatPair(a: string, b: string)
    ensures Concat([a, b]) == a + b
  {
    ConcatCons(a, [b]);
    assert [a] + [b] == [a, b];
    ConcatSingle(b);
  }

  lemma ReadGlued(glued: string)
    requires glued == "A=1B=2\n"
    ensures ReadLines(glued) == [glued]
    ensures !Named(ReadLines(glued), "B")
  {
    assert |glued| == 7 && glued[0] == 'A' && glued[1] == '=' && glued[2] == '1' && glued[3] == 'B'
      && glued[4] == '=' && glued[5] == '2' && glued[6] == '\n';
    ReadLinesOfLine(glued);
    OneLetterKey(glued);
    assert [glued[0]] != "B";
  }

  /**
   The evidently intended `update_env`: a last line without a newline is
   finished before anything is appended. On a file that already ends at a
   line start it is `update_env` exactly.
   */
  function UpdateEnvFileFixed(file: Option<string>, u: Updates): (r: Option<string>)
    ensures r.None? <==> file.None?
    ensures file.Some? && AtLineStart(file.value) ==> r == UpdateEnvFile(file, u)
  {
    if file.None? then None
    else
      var lines := ReadLines(file.value);
      ReadLinesShape(file.value);
      assert AtLineStart(file.value) ==> FinishLastLine(lines) == lines;
      Some(Concat(UpdateEnv(FinishLastLine(lines), u)))
  }

  /** A line of text that ends in a newline and has no other. */
  lemma AssignmentIsLine(k: string, v: string)
    requires KeyName(k) && '\n' !in v
    ensures IsLine(Assignment(k, v)) && EndsWithNewline(Assignment(k, v))
  {
    var a := Assignment(k, v);
    assert forall j :: 0 <= j < |k| ==> a[j] == k[j];
    assert forall j :: |k| < j < |a| - 1 ==> a[j] == v[j - |k| - 1];
    assert IsSpace('\n');
  }

  /** The lines the corrected `update_env` writes all end with a newline. */
  lemma FixedLinesTerminated(s: string, u: Updates)
    ensures forall j :: 0 <= j < |UpdateEnv(FinishLastLine(ReadLines(s)), u)| ==>
      EndsWithNewline(UpdateEnv(FinishLastLine(ReadLines(s)), u)[j])
  {
    FinishedTerminated(s);
    UpdateEnvTerminated(FinishLastLine(ReadLines(s)), u);
  }

  /** `update_env` on terminated lines writes terminated lines. */
  lemma UpdateEnvTerminated(lines: seq<string>, u: Updates)
    requires forall j :: 0 <= j < |lines| ==> EndsWithNewline(lines[j])
    ensures forall j :: 0 <= j < |UpdateEnv(lines, u)| ==> EndsWithNewline(UpdateEnv(lines, u)[j])
  {
    var out := UpdateEnv(lines, u);
    forall j | 0 <= j < |out|
      ensures EndsWithNewline(out[j])
    {
      if j < |lines| {
        var k := LineKey(lines[j]);
        if Lookup(u, k).Some? {
          AssignmentEnds(k, Lookup(u, k).value);
        }
      } else {
        var i :| 0 <= i < |u| && out[j] == Assignment(u[i].0, u[i].1);
        AssignmentEnds(u[i].0, u[i].1);
      }
    }
  }

  lemma AssignmentEnds(k: string, v: string)
    ensures EndsWithNewline(Assignment(k, v))
  {
  }

  /**
   With the correction, every entry whose value has no newline is found
   as its own line `key=value` when the written file is read again.
   */
  lemma UpdateEnvFileFixedReadsBack(s: string, u: Updates, i: nat)
    requires KeyNames(u) && i < |u| && '\n' !in u[i].1
    ensures Assignment(u[i].0, u[i].1) in ReadLines(UpdateEnvFileFixed(Some(s), u).value)
  {
    var lines := FinishLastLine(ReadLines(s));
    var out := UpdateEnv(lines, u);
    FixedWrites(s, u);
    var j := EntryLine(lines, u, i);
    FixedLinesTerminated(s, u);
    AssignmentIsLine(u[i].0, u[i].1);
    ReadBackContains(out, j);
  }

  /**
   On a file that ends with a newline (or is empty), `update_env` as
   written leaves `key=value\n` as a line of its own for every entry.
   */
  lemma UpdateEnvFileReadsBack(s: string, u: Updates, i: nat)
    requires AtLineStart(s) && KeyNames(u) && i < |u| && '\n' !in u[i].1
    ensures Assignment(u[i].0, u[i].1) in ReadLines(UpdateEnvFile(Some(s), u).value)
  {
    UpdateEnvFileFixedReadsBack(s, u, i);
  }

  /** On such a file, every line that ends with a newline and that no entry names is read back. */
  lemma UpdateEnvFileKeeps(s: string, u: Updates, j: nat)
    requires AtLineStart(s) && j < |ReadLines(s)|
    requires Lookup(u, LineKey(ReadLines(s)[j])).None?
    ensures ReadLines(s)[j] in ReadLines(UpdateEnvFile(Some(s), u).value)
  {
    var lines := ReadLines(s);
    var out := UpdateEnv(lines, u);
    ReadLinesShape(s);
    UpdateEnvTerminated(lines, u);
    assert out[j] == lines[j];
    ReadBackContains(out, j);
  }

  lemma FixedWrites(s: string, u: Updates)
    ensures UpdateEnvFileFixed(Some(s), u) == Some(Concat(UpdateEnv(FinishLastLine(ReadLines(s)), u)))
  {
  }

  /** The index of a line of the output that assigns entry `i`. */
  lemma EntryLine(lines: seq<string>, u: Updates, i: nat) returns (j: nat)
    requires KeyNames(u) && i < |u|
    ensures j < |UpdateEnv(lines, u)| && UpdateEnv(lines, u)[j] == Assignment(u[i].0, u[i].1)
  {
    var out := UpdateEnv(lines, u);
    UpdatedKeysRead(lines, u, i);
    j :| 0 <= j < |out| && LineKey(out[j]) == u[i].0;
  }
}
