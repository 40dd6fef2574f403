/** setup.py: after the required-file check, add three lines to the user's
    ~/.bashrc unless both the `export` line and the `source` line are already
    somewhere in it. The file's contents are a value: the outcome says whether
    nothing changed or what the new contents are. */
module Setup {
  import opened Text
  import Package

  datatype Option<T> = None | Some(value: T)

  /** The comment line; it opens with a newline so that the block starts on a line of its own. */
  function MarkerLine(timestamp: string): string
  {
    "\n# Added by mycmd's setup.py on (" + timestamp + ") \U{A9} Tirupati 2025"
  }

  function ExportLine(packageDir: string): string
  {
    "export MYCMD=\"" + packageDir + "\""
  }

  const SourceLine: string := "source \"$MYCMD/.my_custom_bashrc\""

  /** `bashrc_lines_to_add` */
  function LinesToAdd(timestamp: string, packageDir: string): (ls: seq<string>)
    ensures |ls| == 3
  {
    [MarkerLine(timestamp), ExportLine(packageDir), SourceLine]
  }

  /** `"\n".join(bashrc_lines_to_add)`: the text appended to ~/.bashrc. */
  function AppendedText(timestamp: string, packageDir: string): (t: string)
    ensures t == MarkerLine(timestamp) + "\n" + ExportLine(packageDir) + "\n" + SourceLine
    ensures t != [] && t[0] == '\n'
    ensures |SourceLine| <= |t| && t[|t| - |SourceLine|..] == SourceLine
  {
    var m := MarkerLine(timestamp);
    Join3(m, ExportLine(packageDir), SourceLine, "\n");
    assert m[0] == '\n';
    Join(LinesToAdd(timestamp, packageDir), "\n")
  }

  /** The duplicate guard: both checked lines occur as substrings somewhere. */
  predicate AlreadySetUp(contents: string, packageDir: string)
  {
    Contains(contents, ExportLine(packageDir)) && Contains(contents, SourceLine)
  }

  datatype Outcome =
    | PackageFilesMissing(missing: seq<string>)  // exit status 1, nothing read or written
    | ProfileUnreadable                          // reading ~/.bashrc raised; nothing written
    | Unchanged                                  // "Setup already done previously", exit status 0
    | Appended(contents: string)                 // the new contents of ~/.bashrc

  /** The whole script. `isFile` answers `os.path.isfile` in the working
      directory, `profile` is the contents of ~/.bashrc (None when it cannot be
      read), `packageDir` is `os.getcwd()` and `timestamp` the formatted date. */
  function Run(isFile: string -> bool, profile: Option<string>, packageDir: string, timestamp: string): (o: Outcome)
    ensures o.PackageFilesMissing? <==> Package.MissingFiles(isFile) != []
    ensures o.PackageFilesMissing? ==> o.missing == Package.MissingFiles(isFile)
    ensures o.ProfileUnreadable? <==> Package.MissingFiles(isFile) == [] && profile.None?
    ensures o.Unchanged? <==> Package.MissingFiles(isFile) == [] && profile.Some? && AlreadySetUp(profile.value, packageDir)
    ensures o.Appended? ==> profile.Some? && o.contents == profile.value + AppendedText(timestamp, packageDir)
  {
    var missing := Package.MissingFiles(isFile);
    if missing != [] then PackageFilesMissing(missing)
    else match profile
      case None => ProfileUnreadable
      case Some(existing) =>
        if AlreadySetUp(existing, packageDir) then Unchanged
        else Appended(existing + AppendedText(timestamp, packageDir))
  }

  // ---------------------------------------------------------------------------
  // Properties

  /** An append keeps the old contents as a prefix and adds text that starts with
      a newline and ends with the source line. */
  lemma AppendKeepsOldContents(isFile: string -> bool, existing: string, packageDir: string, timestamp: string)
    requires Run(isFile, Some(existing), packageDir, timestamp).Appended?
    ensures var c := Run(isFile, Some(existing), packageDir, timestamp).contents;
            existing < c
            && c[|existing|] == '\n'
            && c[|c| - |SourceLine|..] == SourceLine
  {
    var t := AppendedText(timestamp, packageDir);
    assert Run(isFile, Some(existing), packageDir, timestamp).contents == existing + t;
    AppendShape(existing, t, SourceLine);
  }

  /** Appending `t`, which starts with a newline and ends with `tail`, to `a`. */
  lemma AppendShape(a: string, t: string, tail: string)
    requires t != [] && t[0] == '\n'
    requires |tail| <= |t| && t[|t| - |tail|..] == tail
    ensures a < a + t && (a + t)[|a|] == '\n' && (a + t)[|a + t| - |tail|..] == tail
  {
    var c := a + t;
    assert c[..|a|] == a;
    assert c[|c| - |tail|..] == t[|t| - |tail|..];
  }

  /** After an append both checked lines are present. */
  lemma AppendedTextIsSetUp(existing: string, packageDir: string, timestamp: string)
    ensures AlreadySetUp(existing + AppendedText(timestamp, packageDir), packageDir)
  {
    var m := MarkerLine(timestamp);
    var e := ExportLine(packageDir);
    var c := existing + AppendedText(timestamp, packageDir);
    assert Contains(c, e) by {
      assert c == (existing + m + "\n") + e + ("\n" + SourceLine);
      ContainsMiddle(existing + m + "\n", e, "\n" + SourceLine);
    }
    assert Contains(c, SourceLine) by {
      assert c == (existing + m + "\n" + e + "\n") + SourceLine + "";
      ContainsMiddle(existing + m + "\n" + e + "\n", SourceLine, "");
    }
  }

  /** Idempotence: a second run with the same package directory changes nothing,
      whatever the timestamp of either run. */
  lemma SecondRunChangesNothing(isFile: string -> bool, existing: string, packageDir: string, t1: string, t2: string)
    requires Run(isFile, Some(existing), packageDir, t1).Appended?
    ensures Run(isFile, Some(Run(isFile, Some(existing), packageDir, t1).contents), packageDir, t2) == Unchanged
  {
    AppendedTextIsSetUp(existing, packageDir, t1);
  }

  /** The marker line takes no part in the guard: whether a run appends does not
      depend on the timestamp. */
  lemma GuardIgnoresTimestamp(isFile: string -> bool, profile: Option<string>, packageDir: string, t1: string, t2: string)
    ensures Run(isFile, profile, packageDir, t1).Appended? == Run(isFile, profile, packageDir, t2).Appended?
  {
  }

  /** Contents holding only one of the two checked lines get another append. */
  lemma OneLineIsNotEnough(isFile: string -> bool, existing: string, packageDir: string, timestamp: string)
    requires Package.MissingFiles(isFile) == []
    requires !Contains(existing, ExportLine(packageDir)) || !Contains(existing, SourceLine)
    ensures Run(isFile, Some(existing), packageDir, timestamp) == Appended(existing + AppendedText(timestamp, packageDir))
  {
  }

  /** A run from a different package directory appends a second block: starting
      from an empty ~/.bashrc, setting up from "/p" and then from "/q" appends twice. */
  lemma NewDirectoryAppendsAgain(isFile: string -> bool)
    requires Package.MissingFiles(isFile) == []
    ensures var first := Run(isFile, Some(""), "/p", "");
            first.Appended? && Run(isFile, Some(first.contents), "/q", "").Appended?
  {
    OneLineIsNotEnough(isFile, "", "/p", "");
    var c := "" + AppendedText("", "/p");
    NotSetUpFromOtherDirectory();
    OneLineIsNotEnough(isFile, c, "/q", "");
  }

  /** The block appended from "/p" does not hold the export line for "/q": the
      letter 'q' occurs in that export line and nowhere in the block. */
  lemma NotSetUpFromOtherDirectory()
    ensures !Contains("" + AppendedText("", "/p"), ExportLine("/q"))
  {
    var m := MarkerLine("");
    var e := ExportLine("/p");
    var c := "" + AppendedText("", "/p");
    MarkerLacksDirectoryLetter();
    assert 'q' !in e;
    assert 'q' !in SourceLine;
    assert 'q' !in c by {
      assert c == m + "\n" + e + "\n" + SourceLine;
      CharNotInAppend('q', m, "\n");
      CharNotInAppend('q', m + "\n", e);
      CharNotInAppend('q', m + "\n" + e, "\n");
      CharNotInAppend('q', m + "\n" + e + "\n", SourceLine);
    }
    assert 'q' in ExportLine("/q") by {
      assert ExportLine("/q")[|ExportLine("/q")| - 2] == 'q';
    }
    AbsentCharNotContained(c, ExportLine("/q"), 'q');
  }

  /** The marker line (empty timestamp) does not hold the letter of the second directory. */
  lemma MarkerLacksDirectoryLetter()
    ensures 'q' !in MarkerLine("")
  {
  }
}
