/** convert-eol.py: detect whether a file uses CRLF or LF line endings and,
    when the user answers "y", convert it to the other convention.

    File contents are byte sequences. Reading a binary file line by line
    yields chunks that each end just after a `\n` byte (the last chunk may
    have none); `Lines` is that iteration. The two converters write the
    per-line `replace` of every chunk, one after the other. */
module ConvertEol {
  import opened Text

  newtype byte = x: int | 0 <= x < 256

  const CR: byte := 13
  const LF: byte := 10

  datatype Ending = Crlf | Lf

  // ---------------------------------------------------------------------------
  // Reading a binary file line by line

  /** A chunk produced by line iteration: non-empty, and `\n` can only be its last byte. */
  predicate IsLine(l: seq<byte>)
  {
    l != [] && forall i :: 0 <= i < |l| - 1 ==> l[i] != LF
  }

  /** The length of the first line of `s`: up to and including the first `\n`. */
  function FirstLineLen(s: seq<byte>): (n: nat)
    ensures s != [] ==> 0 < n
    ensures n <= |s|
    ensures forall i :: 0 <= i < n - 1 ==> s[i] != LF
    ensures n < |s| ==> s[n - 1] == LF
  {
    if s == [] then 0 else if s[0] == LF then 1 else 1 + FirstLineLen(s[1..])
  }

  predicate EndsWithLf(l: seq<byte>)
  {
    l != [] && l[|l| - 1] == LF
  }

  function Concat(ls: seq<seq<byte>>): seq<byte>
  {
    if ls == [] then [] else ls[0] + Concat(ls[1..])
  }

  /** `for line in f` on a file opened in binary mode. */
  function Lines(s: seq<byte>): (ls: seq<seq<byte>>)
    ensures Concat(ls) == s
    ensures forall k :: 0 <= k < |ls| ==> IsLine(ls[k])
    ensures forall k :: 0 <= k < |ls| - 1 ==> EndsWithLf(ls[k])
    decreases |s|
  {
    if s == [] then []
    else
      var n := FirstLineLen(s);
      assert s[..n] + s[n..] == s;
      [s[..n]] + Lines(s[n..])
  }

  lemma {:induction false} ConcatSnoc(ls: seq<seq<byte>>, l: seq<byte>)
    ensures Concat(ls + [l]) == Concat(ls) + l
  {
    if ls == [] {
      assert [] + [l] == [l];
    } else {
      assert (ls + [l])[1..] == ls[1..] + [l];
      ConcatSnoc(ls[1..], l);
    }
  }

  // ---------------------------------------------------------------------------
  // The byte-level replacements

  /** There is a `\r\n` somewhere in `s` (Python's `b"\r\n" in s`). */
  predicate ContainsCrlf(s: seq<byte>)
  {
    exists i :: 0 <= i < |s| - 1 && s[i] == CR && s[i + 1] == LF
  }

  /** The number of `\r\n` pairs in `s` (they never overlap). */
  function CountCrlf(s: seq<byte>): nat
  {
    if |s| < 2 then 0 else (if s[0] == CR && s[1] == LF then 1 else 0) + CountCrlf(s[1..])
  }

  function CountLf(s: seq<byte>): nat
  {
    if s == [] then 0 else (if s[0] == LF then 1 else 0) + CountLf(s[1..])
  }

  /** `s.replace(b"\r\n", b"\n")`, scanning left to right. */
  function ReplaceCrlfWithLf(s: seq<byte>): seq<byte>
  {
    if |s| >= 2 && s[0] == CR && s[1] == LF then [LF] + ReplaceCrlfWithLf(s[2..])
    else if s == [] then []
    else [s[0]] + ReplaceCrlfWithLf(s[1..])
  }

  /** `s.replace(b"\n", b"\r\n")` */
  function ReplaceLfWithCrlf(s: seq<byte>): seq<byte>
  {
    if s == [] then [] else (if s[0] == LF then [CR, LF] else [s[0]]) + ReplaceLfWithCrlf(s[1..])
  }

  /** A chunk that does not end in `\r` cannot start a `\r\n` with the next chunk. */
  predicate NoTrailingCr(s: seq<byte>)
  {
    s == [] || s[|s| - 1] != CR
  }

  lemma {:induction false} ReplaceCrlfAppend(a: seq<byte>, b: seq<byte>)
    requires NoTrailingCr(a)
    ensures ReplaceCrlfWithLf(a + b) == ReplaceCrlfWithLf(a) + ReplaceCrlfWithLf(b)
    decreases |a|, 1
  {
    if a == [] {
      assert a + b == b;
    } else if |a| >= 2 && a[0] == CR && a[1] == LF {
      ReplaceCrlfAppendPair(a, b);
    } else {
      ReplaceCrlfAppendByte(a, b);
    }
  }

  lemma {:induction false} ReplaceCrlfAppendPair(a: seq<byte>, b: seq<byte>)
    requires NoTrailingCr(a) && |a| >= 2 && a[0] == CR && a[1] == LF
    ensures ReplaceCrlfWithLf(a + b) == ReplaceCrlfWithLf(a) + ReplaceCrlfWithLf(b)
    decreases |a|, 0
  {
    var s := a + b;
    assert s[0] == CR && s[1] == LF && s[2..] == a[2..] + b;
    ReplaceCrlfAppend(a[2..], b);
    assert [LF] + (ReplaceCrlfWithLf(a[2..]) + ReplaceCrlfWithLf(b))
        == ([LF] + ReplaceCrlfWithLf(a[2..])) + ReplaceCrlfWithLf(b);
  }

  lemma {:induction false} ReplaceCrlfAppendByte(a: seq<byte>, b: seq<byte>)
    requires NoTrailingCr(a) && a != [] && !(|a| >= 2 && a[0] == CR && a[1] == LF)
    ensures ReplaceCrlfWithLf(a + b) == ReplaceCrlfWithLf(a) + ReplaceCrlfWithLf(b)
    decreases |a|, 0
  {
    var s := a + b;
    assert s[0] == a[0] && s[1..] == a[1..] + b;
    assert NoTrailingCr(a[1..]);
    calc {
      ReplaceCrlfWithLf(s);
    == { assert |a| >= 2 ==> s[1] == a[1];
         ReplaceCrlfSkipByte(s); }
      [a[0]] + ReplaceCrlfWithLf(a[1..] + b);
    == { ReplaceCrlfAppend(a[1..], b); }
      [a[0]] + (ReplaceCrlfWithLf(a[1..]) + ReplaceCrlfWithLf(b));
    ==
      ([a[0]] + ReplaceCrlfWithLf(a[1..])) + ReplaceCrlfWithLf(b);
    == { ReplaceCrlfSkipByte(a); }
      ReplaceCrlfWithLf(a) + ReplaceCrlfWithLf(b);
    }
  }

  /** A first byte that does not start a `\r\n` is copied. */
  lemma ReplaceCrlfSkipByte(s: seq<byte>)
    requires s != [] && !(|s| >= 2 && s[0] == CR && s[1] == LF)
    ensures ReplaceCrlfWithLf(s) == [s[0]] + ReplaceCrlfWithLf(s[1..])
  {
  }

  lemma {:induction false} ReplaceLfAppend(a: seq<byte>, b: seq<byte>)
    ensures ReplaceLfWithCrlf(a + b) == ReplaceLfWithCrlf(a) + ReplaceLfWithCrlf(b)
  {
    if a == [] {
      assert a + b == b;
    } else {
      assert (a + b)[0] == a[0];
      assert (a + b)[1..] == a[1..] + b;
      ReplaceLfAppend(a[1..], b);
    }
  }

  /** A `\r\n` in either part is one in the concatenation. */
  lemma ContainsCrlfGrows(a: seq<byte>, b: seq<byte>)
    ensures ContainsCrlf(a) || ContainsCrlf(b) ==> ContainsCrlf(a + b)
  {
    var s := a + b;
    if ContainsCrlf(a) {
      var i :| 0 <= i < |a| - 1 && a[i] == CR && a[i + 1] == LF;
      assert s[i] == CR && s[i + 1] == LF;
    }
    if ContainsCrlf(b) {
      var i :| 0 <= i < |b| - 1 && b[i] == CR && b[i + 1] == LF;
      assert s[|a| + i] == CR && s[|a| + i + 1] == LF;
    }
  }

  /** When `a` does not end in `\r`, no `\r\n` straddles the boundary. */
  lemma ContainsCrlfAppend(a: seq<byte>, b: seq<byte>)
    requires NoTrailingCr(a)
    ensures ContainsCrlf(a + b) <==> ContainsCrlf(a) || ContainsCrlf(b)
  {
    var s := a + b;
    if ContainsCrlf(s) {
      var i :| 0 <= i < |s| - 1 && s[i] == CR && s[i + 1] == LF;
      if i + 1 < |a| {
        assert a[i] == CR && a[i + 1] == LF;
      } else if i >= |a| {
        assert b[i - |a|] == CR && b[i - |a| + 1] == LF;
      }
    }
    ContainsCrlfGrows(a, b);
  }

  /** Content read up to the end of a line never ends in `\r`. */
  lemma EndsAtLineBreak(a: seq<byte>, l: seq<byte>)
    requires EndsWithLf(l)
    ensures NoTrailingCr(a + l)
  {
    assert (a + l)[|a + l| - 1] == l[|l| - 1];
  }

  // ---------------------------------------------------------------------------
  // The script's three functions, over the file's lines

  /** `detect_line_endings`: the first line holding `\r\n` decides "CRLF";
      otherwise "LF". */
  method DetectLineEndings(content: seq<byte>) returns (ending: Ending)
    ensures ending == Crlf <==> ContainsCrlf(content)
  {
    var lines := Lines(content);
    for i := 0 to |lines|
      invariant !ContainsCrlf(Concat(lines[..i]))
      invariant i < |lines| ==> NoTrailingCr(Concat(lines[..i]))
    {
      var done := Concat(lines[..i]);
      ConcatSnoc(lines[..i], lines[i]);
      assert lines[..i + 1] == lines[..i] + [lines[i]];
      if i + 1 < |lines| {
        EndsAtLineBreak(done, lines[i]);
      }
      ContainsCrlfAppend(done, lines[i]);
      if ContainsCrlf(lines[i]) {
        ending := Crlf;
        ConcatSplit(lines, i + 1);
        ContainsCrlfGrows(Concat(lines[..i + 1]), Concat(lines[i + 1..]));
        return;
      }
    }
    assert lines[..|lines|] == lines;
    ending := Lf;
  }

  lemma {:induction false} ConcatSplit(ls: seq<seq<byte>>, j: nat)
    requires j <= |ls|
    ensures Concat(ls[..j]) + Concat(ls[j..]) == Concat(ls)
  {
    if j > 0 {
      assert ls[..j][0] == ls[0] && ls[..j][1..] == ls[1..][..j - 1];
      assert ls[j..] == ls[1..][j - 1..];
      ConcatSplit(ls[1..], j - 1);
    } else {
      assert ls[j..] == ls;
    }
  }

  /** `convert_crlf_to_lf`: the new file is the per-line replacement of every line. */
  method ConvertCrlfToLf(content: seq<byte>) returns (out: seq<byte>)
    ensures out == ReplaceCrlfWithLf(content)
  {
    var lines := Lines(content);
    out := [];
    for i := 0 to |lines|
      invariant out == ReplaceCrlfWithLf(Concat(lines[..i]))
      invariant i < |lines| ==> NoTrailingCr(Concat(lines[..i]))
    {
      var done := Concat(lines[..i]);
      ConcatSnoc(lines[..i], lines[i]);
      assert lines[..i + 1] == lines[..i] + [lines[i]];
      if i + 1 < |lines| {
        EndsAtLineBreak(done, lines[i]);
      }
      ReplaceCrlfAppend(done, lines[i]);
      out := out + ReplaceCrlfWithLf(lines[i]);
    }
    assert lines[..|lines|] == lines;
  }

  /** `convert_lf_to_crlf`: the new file is the per-line replacement of every line. */
  method ConvertLfToCrlf(content: seq<byte>) returns (out: seq<byte>)
    ensures out == ReplaceLfWithCrlf(content)
  {
    var lines := Lines(content);
    out := [];
    for i := 0 to |lines|
      invariant out == ReplaceLfWithCrlf(Concat(lines[..i]))
    {
      ConcatSnoc(lines[..i], lines[i]);
      assert lines[..i + 1] == lines[..i] + [lines[i]];
      ReplaceLfAppend(Concat(lines[..i]), lines[i]);
      out := out + ReplaceLfWithCrlf(lines[i]);
    }
    assert lines[..|lines|] == lines;
  }

  // ---------------------------------------------------------------------------
  // main

  datatype Outcome =
    | UsageError                                  // wrong argument count: exit status 1
    | FileNotFound(path: string)                  // not an existing file: exit status 1
    | Skipped(detected: Ending)                   // the answer was not "y"
    | Converted(detected: Ending, content: seq<byte>)

  /** `input(...).strip().lower() == "y"` */
  predicate IsYes(answer: string)
  {
    Lower(Strip(answer)) == "y"
  }

  /** `main`: `argv` is `sys.argv` (the script name first), `isFile` answers
      `os.path.isfile`, `content` is what the named file holds and `answer` is
      what the user types at the prompt. */
  method Run(argv: seq<string>, isFile: string -> bool, content: seq<byte>, answer: string)
    returns (o: Outcome)
    ensures |argv| != 2 ==> o == UsageError
    ensures |argv| == 2 && !isFile(argv[1]) ==> o == FileNotFound(argv[1])
    ensures |argv| == 2 && isFile(argv[1]) && !IsYes(answer) ==>
              o == Skipped(if ContainsCrlf(content) then Crlf else Lf)
    ensures |argv| == 2 && isFile(argv[1]) && IsYes(answer) ==>
              o == if ContainsCrlf(content) then Converted(Crlf, ReplaceCrlfWithLf(content))
                   else Converted(Lf, ReplaceLfWithCrlf(content))
  {
    if |argv| != 2 {
      return UsageError;
    }
    var path := argv[1];
    if !isFile(path) {
      return FileNotFound(path);
    }
    var ending := DetectLineEndings(content);
    if ending == Crlf {
      if IsYes(answer) {
        var converted := ConvertCrlfToLf(content);
        o := Converted(Crlf, converted);
      } else {
        o := Skipped(Crlf);
      }
    } else {
      if IsYes(answer) {
        var converted := ConvertLfToCrlf(content);
        o := Converted(Lf, converted);
      } else {
        o := Skipped(Lf);
      }
    }
  }

  // ---------------------------------------------------------------------------
  // Properties

  /** The answer counts as "yes" exactly when, without surrounding whitespace,
      it is "y" or "Y". */
  lemma IsYesIff(answer: string)
    ensures IsYes(answer) <==> Strip(answer) == "y" || Strip(answer) == "Y"
  {
    LowerIsY(Strip(answer));
  }

  lemma {:induction false} ReplaceLfNeverStartsWithLf(s: seq<byte>)
    ensures ReplaceLfWithCrlf(s) == [] || ReplaceLfWithCrlf(s)[0] != LF
  {
  }

  /** Round trip: converting LF to CRLF and back gives the original bytes, for any content. */
  lemma {:induction false} RoundTrip(s: seq<byte>)
    ensures ReplaceCrlfWithLf(ReplaceLfWithCrlf(s)) == s
  {
    if s != [] {
      var rest := ReplaceLfWithCrlf(s[1..]);
      RoundTrip(s[1..]);
      if s[0] == LF {
        assert ReplaceLfWithCrlf(s) == [CR, LF] + rest;
        assert ([CR, LF] + rest)[2..] == rest;
      } else {
        assert ReplaceLfWithCrlf(s) == [s[0]] + rest;
        ReplaceLfNeverStartsWithLf(s[1..]);
        assert ([s[0]] + rest)[1..] == rest;
      }
      assert s == [s[0]] + s[1..];
    }
  }

  /** LF to CRLF adds exactly one byte per `\n`. */
  lemma {:induction false} ReplaceLfLength(s: seq<byte>)
    ensures |ReplaceLfWithCrlf(s)| == |s| + CountLf(s)
  {
    if s != [] {
      ReplaceLfLength(s[1..]);
    }
  }

  /** CRLF to LF removes exactly one byte per `\r\n`. */
  lemma {:induction false} ReplaceCrlfLength(s: seq<byte>)
    ensures |ReplaceCrlfWithLf(s)| == |s| - CountCrlf(s)
  {
    if |s| >= 2 && s[0] == CR && s[1] == LF {
      ReplaceCrlfLength(s[2..]);
      assert CountCrlf(s[1..]) == CountCrlf(s[2..]);
    } else if s != [] {
      ReplaceCrlfLength(s[1..]);
    }
  }

  /** CountCrlf counts what ContainsCrlf looks for. */
  lemma {:induction false} CountCrlfPositive(s: seq<byte>)
    ensures CountCrlf(s) > 0 <==> ContainsCrlf(s)
  {
    if |s| >= 2 {
      CountCrlfPositive(s[1..]);
      if ContainsCrlf(s[1..]) {
        var i :| 0 <= i < |s[1..]| - 1 && s[1..][i] == CR && s[1..][i + 1] == LF;
        assert s[i + 1] == CR && s[i + 2] == LF;
      }
      if ContainsCrlf(s) && !(s[0] == CR && s[1] == LF) {
        var i :| 0 <= i < |s| - 1 && s[i] == CR && s[i + 1] == LF;
        assert s[1..][i - 1] == CR && s[1..][i] == LF;
      }
    } else {
      assert !ContainsCrlf(s);
    }
  }

  /** CRLF to LF leaves content without `\r\n` unchanged (lone `\r` bytes included),
      and changes every content that has one. */
  lemma ReplaceCrlfIdentityIff(s: seq<byte>)
    ensures ReplaceCrlfWithLf(s) == s <==> !ContainsCrlf(s)
  {
    ReplaceCrlfLength(s);
    CountCrlfPositive(s);
    if !ContainsCrlf(s) {
      ReplaceCrlfIdentity(s);
    }
  }

  lemma {:induction false} ReplaceCrlfIdentity(s: seq<byte>)
    requires !ContainsCrlf(s)
    ensures ReplaceCrlfWithLf(s) == s
  {
    if s != [] {
      if |s| >= 2 {
        assert !(s[0] == CR && s[1] == LF);
      }
      assert !ContainsCrlf(s[1..]);
      ReplaceCrlfIdentity(s[1..]);
      assert s == [s[0]] + s[1..];
    }
  }

  /** In a line, CRLF to LF only drops the `\r` before a final `\n`. */
  lemma {:induction false} ReplaceCrlfOnLine(l: seq<byte>)
    requires IsLine(l)
    ensures ReplaceCrlfWithLf(l) ==
              if |l| >= 2 && l[|l| - 2] == CR && l[|l| - 1] == LF then l[..|l| - 2] + [LF] else l
  {
    if |l| >= 2 && l[0] == CR && l[1] == LF {
      assert |l| == 2;
      assert l[..0] + [LF] == [LF];
    } else if |l| == 1 {
    } else {
      assert IsLine(l[1..]);
      ReplaceCrlfOnLine(l[1..]);
      assert l == [l[0]] + l[1..];
      if l[|l| - 2] == CR && l[|l| - 1] == LF {
        assert l[1..][..|l| - 3] == l[1..|l| - 2];
        assert l[..|l| - 2] == [l[0]] + l[1..|l| - 2];
      }
    }
  }

  /** In a line, LF to CRLF only puts a `\r` before a final `\n`. */
  lemma {:induction false} ReplaceLfOnLine(l: seq<byte>)
    requires IsLine(l)
    ensures ReplaceLfWithCrlf(l) == if l[|l| - 1] == LF then l[..|l| - 1] + [CR, LF] else l
  {
    if |l| > 1 {
      assert IsLine(l[1..]);
      ReplaceLfOnLine(l[1..]);
      assert l == [l[0]] + l[1..];
      if l[|l| - 1] == LF {
        assert l[..|l| - 1] == [l[0]] + l[1..][..|l| - 2];
      }
    }
  }

  /** After LF to CRLF, content with any `\n` is detected as "CRLF". */
  lemma {:induction false} ReplaceLfMakesCrlf(s: seq<byte>)
    requires LF in s
    ensures ContainsCrlf(ReplaceLfWithCrlf(s))
  {
    var r := ReplaceLfWithCrlf(s);
    if s[0] == LF {
      assert r[0] == CR && r[1] == LF;
    } else {
      var rest := ReplaceLfWithCrlf(s[1..]);
      ReplaceLfMakesCrlf(s[1..]);
      assert r == [s[0]] + rest;
      var i :| 0 <= i < |rest| - 1 && rest[i] == CR && rest[i + 1] == LF;
      assert r[i + 1] == CR && r[i + 2] == LF;
    }
  }

  /** LF to CRLF is not idempotent: an existing `\r\n` becomes `\r\r\n`. */
  lemma ReplaceLfNotIdempotent()
    ensures ReplaceLfWithCrlf([CR, LF]) == [CR, CR, LF]
    ensures ReplaceLfWithCrlf(ReplaceLfWithCrlf([LF])) != ReplaceLfWithCrlf([LF])
  {
    assert ReplaceLfWithCrlf([LF]) == [CR, LF];
    assert [CR, LF][1..] == [LF];
    assert ReplaceLfWithCrlf([CR, LF]) == [CR] + ReplaceLfWithCrlf([LF]);
  }

  /** CRLF to LF can leave a `\r\n` behind: `\r\r\n` becomes `\r\n`, which is
      still detected as "CRLF". */
  lemma ReplaceCrlfMayLeaveCrlf()
    ensures ReplaceCrlfWithLf([CR, CR, LF]) == [CR, LF]
    ensures ContainsCrlf(ReplaceCrlfWithLf([CR, CR, LF]))
  {
    assert [CR, CR, LF][1..] == [CR, LF];
    assert [CR, LF][2..] == [];
    assert ReplaceCrlfWithLf([CR, LF]) == [LF];
    var r := ReplaceCrlfWithLf([CR, CR, LF]);
    assert r[0] == CR && r[1] == LF;
  }
}
