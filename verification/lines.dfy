/**
 Text files as Python's `readlines` and `writelines` see them: a file is
 a string, its lines are the pieces that end just after each newline, and
 the last piece may lack one. Only `\n` ends a line here.
 */
module Lines {

  /** Index of the first newline of `s` at or after `k`, or `|s|` when there is none. */
  function NewlineFrom(s: string, k: nat): (i: nat)
    requires k <= |s|
    ensures k <= i <= |s|
    ensures forall j :: k <= j < i ==> s[j] != '\n'
    ensures i < |s| ==> s[i] == '\n'
    decreases |s| - k
  {
    if k == |s| || s[k] == '\n' then k else NewlineFrom(s, k + 1)
  }

  /** Index of the first newline of `s`, or `|s|` when there is none. */
  function NewlineIndex(s: string): (i: nat)
    ensures i <= |s|
    ensures forall j :: 0 <= j < i ==> s[j] != '\n'
    ensures i < |s| ==> s[i] == '\n'
  {
    NewlineFrom(s, 0)
  }

  /** `f.readlines()`: every line keeps its newline; a last line without one is kept too. */
  function ReadLines(s: string): seq<string>
    decreases |s|
  {
    if |s| == 0 then []
    else
      var i := NewlineIndex(s);
      if i == |s| then [s] else [s[..i + 1]] + ReadLines(s[i + 1..])
  }

  /** `f.writelines(lines)`: the lines written one after the other, nothing added. */
  function Concat(lines: seq<string>): string {
    if |lines| == 0 then "" else lines[0] + Concat(lines[1..])
  }

  predicate EndsWithNewline(s: string) {
    |s| > 0 && s[|s| - 1] == '\n'
  }

  /** A single line: non-empty, with no newline before its end. */
  predicate IsLine(s: string) {
    |s| > 0 && forall j :: 0 <= j < |s| - 1 ==> s[j] != '\n'
  }

  /** Text that can be appended to without gluing onto a previous line. */
  predicate AtLineStart(s: string) {
    |s| == 0 || EndsWithNewline(s)
  }

  /** One step of `readlines`: the first line runs up to and including the first newline. */
  lemma ReadLinesStep(s: string)
    requires NewlineIndex(s) < |s|
    ensures ReadLines(s) == [s[..NewlineIndex(s) + 1]] + ReadLines(s[NewlineIndex(s) + 1..])
  {
  }

  /** One step of `writelines`. */
  lemma ConcatCons(x: string, rest: seq<string>)
    ensures Concat([x] + rest) == x + Concat(rest)
  {
    assert ([x] + rest)[0] == x;
    assert ([x] + rest)[1..] == rest;
  }

  /** Reading the lines and writing them back gives the file unchanged. */
  lemma {:induction false} ConcatReadLines(s: string)
    ensures Concat(ReadLines(s)) == s
    decreases |s|
  {
    if |s| > 0 {
      var i := NewlineIndex(s);
      if i < |s| {
        ReadLinesStep(s);
        ConcatCons(s[..i + 1], ReadLines(s[i + 1..]));
        ConcatReadLines(s[i + 1..]);
        TakeDrop(s, i + 1);
      } else {
        ConcatSingle(s);
      }
    }
  }

  lemma TakeDrop(s: string, k: nat)
    requires k <= |s|
    ensures s[..k] + s[k..] == s
  {
  }

  lemma ConcatSingle(s: string)
    ensures Concat([s]) == s
  {
    assert [s][1..] == [];
  }

  /** Every line read is a line; all but the last end with a newline, and so does the last when the file does. */
  lemma {:induction false} ReadLinesShape(s: string)
    ensures forall j :: 0 <= j < |ReadLines(s)| ==> IsLine(ReadLines(s)[j])
    ensures forall j :: 0 <= j < |ReadLines(s)| - 1 ==> EndsWithNewline(ReadLines(s)[j])
    ensures AtLineStart(s) ==> forall j :: 0 <= j < |ReadLines(s)| ==> EndsWithNewline(ReadLines(s)[j])
    decreases |s|
  {
    if |s| > 0 {
      var i := NewlineIndex(s);
      if i < |s| {
        var rest := s[i + 1..];
        ReadLinesShape(rest);
        if |rest| > 0 {
          assert rest[|rest| - 1] == s[|s| - 1];
        }
      }
    }
  }

  /** After text that ends at a line start, the rest is read independently. */
  lemma {:induction false} ReadLinesAppend(a: string, b: string)
    requires AtLineStart(a)
    ensures ReadLines(a + b) == ReadLines(a) + ReadLines(b)
    decreases |a|
  {
    if |a| == 0 {
      assert a + b == b;
    } else {
      var i := NewlineIndex(a);
      assert i < |a| by {
        assert a[|a| - 1] == '\n';
      }
      NewlineIndexPrefix(a, b, i);
      ReadLinesStep(a);
      ReadLinesStep(a + b);
      AppendSlices(a, b, i);
      var rest := a[i + 1..];
      RestAtLineStart(a, i);
      ReadLinesAppend(rest, b);
      ConsAssoc(a[..i + 1], ReadLines(rest), ReadLines(b));
    }
  }

  lemma AppendSlices(a: string, b: string, i: nat)
    requires i < |a|
    ensures (a + b)[..i + 1] == a[..i + 1] && (a + b)[i + 1..] == a[i + 1..] + b
  {
  }

  lemma RestAtLineStart(a: string, i: nat)
    requires i < |a| && AtLineStart(a)
    ensures AtLineStart(a[i + 1..])
  {
    var rest := a[i + 1..];
    if |rest| > 0 {
      assert rest[|rest| - 1] == a[|a| - 1];
    }
  }

  lemma ConsAssoc(x: string, r: seq<string>, t: seq<string>)
    ensures [x] + (r + t) == ([x] + r) + t
  {
  }

  /** The first newline sits at the first index holding one. */
  lemma NewlineIndexAt(s: string, i: nat)
    requires i <= |s| && (i < |s| ==> s[i] == '\n') && forall j :: 0 <= j < i ==> s[j] != '\n'
    ensures NewlineIndex(s) == i
  {
  }

  lemma NewlineIndexPrefix(a: string, b: string, i: nat)
    requires i < |a| && a[i] == '\n' && forall j :: 0 <= j < i ==> a[j] != '\n'
    ensures NewlineIndex(a + b) == i
  {
    assert (a + b)[i] == '\n';
    assert forall j :: 0 <= j < i ==> (a + b)[j] == a[j];
    NewlineIndexAt(a + b, i);
  }

  /** A single terminated line reads back as itself. */
  lemma ReadLinesOfLine(l: string)
    requires IsLine(l) && EndsWithNewline(l)
    ensures ReadLines(l) == [l]
  {
    assert NewlineIndex(l) == |l| - 1;
    assert l[|l|..] == [];
    assert l[..|l|] == l;
  }

  lemma {:induction false} ConcatAppend(p: seq<string>, q: seq<string>)
    ensures Concat(p + q) == Concat(p) + Concat(q)
    decreases |p|
  {
    if |p| == 0 {
      assert p + q == q;
    } else {
      assert (p + q)[1..] == p[1..] + q;
      ConcatAppend(p[1..], q);
    }
  }

  /** Terminated lines written one after another leave the file at a line start. */
  lemma {:induction false} ConcatAtLineStart(lines: seq<string>)
    requires forall j :: 0 <= j < |lines| ==> EndsWithNewline(lines[j])
    ensures AtLineStart(Concat(lines))
    decreases |lines|
  {
    if |lines| > 0 {
      ConcatAtLineStart(lines[1..]);
      var rest := Concat(lines[1..]);
      if |rest| > 0 {
        assert Concat(lines)[|Concat(lines)| - 1] == rest[|rest| - 1];
      }
    }
  }

  lemma ConcatAround(p: seq<string>, l: string, q: seq<string>)
    ensures Concat(p + [l] + q) == Concat(p) + l + Concat(q)
  {
    ConcatAppend(p + [l], q);
    ConcatAppend(p, [l]);
    assert Concat([l]) == l + Concat([]);
  }

  /** A single line between a line start and any text is one of the lines read. */
  lemma ReadMiddle(a: string, l: string, b: string)
    requires AtLineStart(a) && IsLine(l) && EndsWithNewline(l)
    ensures l in ReadLines(a + l + b)
  {
    assert AtLineStart(a + l) by {
      assert (a + l)[|a + l| - 1] == l[|l| - 1];
    }
    ReadLinesAppend(a + l, b);
    ReadLinesAppend(a, l);
    ReadLinesOfLine(l);
    assert ReadLines(a + l) == ReadLines(a) + [l];
    assert (ReadLines(a) + [l])[|ReadLines(a)|] == l;
  }

  /**
   Writing terminated lines and reading the file back yields, among its
   lines, every one of them that is a single line.
   */
  lemma ReadBackContains(lines: seq<string>, j: nat)
    requires forall m :: 0 <= m < |lines| ==> EndsWithNewline(lines[m])
    requires j < |lines| && IsLine(lines[j])
    ensures lines[j] in ReadLines(Concat(lines))
  {
    var p, l, q := lines[..j], lines[j], lines[j + 1..];
    SplitAt(lines, j);
    assert forall m :: 0 <= m < |p| ==> EndsWithNewline(p[m]);
    ReadBackAround(p, l, q);
  }

  lemma SplitAt(lines: seq<string>, j: nat)
    requires j < |lines|
    ensures lines == lines[..j] + [lines[j]] + lines[j + 1..]
  {
  }

  lemma ReadBackAround(p: seq<string>, l: string, q: seq<string>)
    requires forall m :: 0 <= m < |p| ==> EndsWithNewline(p[m])
    requires IsLine(l) && EndsWithNewline(l)
    ensures l in ReadLines(Concat(p + [l] + q))
  {
    ConcatAround(p, l, q);
    ConcatAtLineStart(p);
    ReadMiddle(Concat(p), l, Concat(q));
  }

  /** The lines with a newline added to the last one when it lacks it. */
  function FinishLastLine(lines: seq<string>): (r: seq<string>)
    ensures |r| == |lines|
    ensures forall j :: 0 <= j < |lines| && EndsWithNewline(lines[j]) ==> r[j] == lines[j]
    ensures forall j :: 0 <= j < |lines| - 1 ==> r[j] == lines[j]
    ensures |lines| > 0 ==> EndsWithNewline(r[|r| - 1])
    ensures |lines| > 0 ==> r[|r| - 1] == lines[|lines| - 1] || r[|r| - 1] == lines[|lines| - 1] + "\n"
  {
    if |lines| == 0 || EndsWithNewline(lines[|lines| - 1]) then lines
    else lines[..|lines| - 1] + [lines[|lines| - 1] + "\n"]
  }

  /** After the last line is finished, every line read ends with a newline. */
  lemma FinishedTerminated(s: string)
    ensures forall j :: 0 <= j < |FinishLastLine(ReadLines(s))| ==> EndsWithNewline(FinishLastLine(ReadLines(s))[j])
  {
    var read := ReadLines(s);
    var lines := FinishLastLine(read);
    ReadLinesShape(s);
    forall j | 0 <= j < |lines|
      ensures EndsWithNewline(lines[j])
    {
      if j < |lines| - 1 {
        assert lines[j] == read[j];
      }
    }
  }

  /** A non-empty text without a newline reads as one line. */
  lemma ReadUnterminated(s: string)
    requires |s| > 0 && forall j :: 0 <= j < |s| ==> s[j] != '\n'
    ensures ReadLines(s) == [s]
  {
    NewlineIndexAt(s, |s|);
  }
}
