/** build.py: after the required-file check, rewrite the version line of
    README.txt and then pack the package's regular files into a zip archive
    under ./builds. README.txt is a list of lines as `readlines()` gives them;
    the archive is modelled by its path and the names of its members. */
module Build {
  import opened Text
  import opened Seqs
  import Package

  /** The script never packs itself. */
  const ScriptName: string := "build.py"

  // ---------------------------------------------------------------------------
  // The version line of README.txt

  /** The new second line of README.txt, e.g. "Version: 1.1 (as on Sep 25, 2025)\n". */
  function VersionLine(version: string, date: string): (l: string)
    ensures l != [] && l[|l| - 1] == '\n'
    ensures '\n' !in version && '\n' !in date ==> '\n' !in l[..|l| - 1]
  {
    assert ("Version: " + version + " (as on " + date + ")\n")[..|"Version: " + version + " (as on " + date + ")"|]
        == "Version: " + version + " (as on " + date + ")";
    "Version: " + version + " (as on " + date + ")\n"
  }

  /** `second_line.split()` after `.strip()` */
  function Tokens(line: string): seq<string>
  {
    Words(Strip(line))
  }

  /** Why the README step raises before anything is written. */
  datatype ReadmeError =
    | TooFewLines        // `lines[1]`: IndexError
    | NoVersionToken     // `.split()[1]`: IndexError
    | VersionNotANumber  // `float(...)`: ValueError

  datatype ReadmeUpdate =
    | ReadmeFailed(error: ReadmeError)
    | ReadmeBumped(lines: seq<string>, version: string)

  /** Step 3 of the script. `isNumber` says whether `float` accepts a token and
      `bump` gives the text of `round(float(token) + 0.1, 1)`; `date` is today's
      date as "%b %d, %Y". Only `lines[1]` is replaced. */
  function BumpReadme(lines: seq<string>, isNumber: string -> bool, bump: string -> string, date: string): (r: ReadmeUpdate)
    ensures r == ReadmeFailed(TooFewLines) <==> |lines| < 2
    ensures r == ReadmeFailed(NoVersionToken) <==> |lines| >= 2 && |Tokens(lines[1])| < 2
    ensures r == ReadmeFailed(VersionNotANumber) <==>
              |lines| >= 2 && |Tokens(lines[1])| >= 2 && !isNumber(Tokens(lines[1])[1])
    ensures r.ReadmeBumped? ==>
              && |r.lines| == |lines|
              && r.version == bump(Tokens(lines[1])[1])
              && r.lines[1] == VersionLine(r.version, date)
              && forall i :: 0 <= i < |lines| && i != 1 ==> r.lines[i] == lines[i]
  {
    if |lines| < 2 then ReadmeFailed(TooFewLines)
    else
      var tokens := Tokens(lines[1]);
      if |tokens| < 2 then ReadmeFailed(NoVersionToken)
      else if !isNumber(tokens[1]) then ReadmeFailed(VersionNotANumber)
      else
        var version := bump(tokens[1]);
        ReadmeBumped(lines[1 := VersionLine(version, date)], version)
  }

  // ---------------------------------------------------------------------------
  // The archive

  /** `f"./builds/mycmd_V-{version}_{today}.zip"`, `today` as "%b-%d-%Y". */
  function ArchivePath(version: string, date: string): (p: string)
    ensures "./builds/mycmd_V-" <= p
    ensures |p| >= 4 && p[|p| - 4..] == ".zip"
  {
    "./builds/mycmd_V-" + version + "_" + date + ".zip"
  }

  function IsArchived(isFile: string -> bool): string -> bool
  {
    (item: string) => item != ScriptName && isFile(item)
  }

  /** The loop over `os.listdir(".")`: skip build.py, add every regular file. */
  method ArchiveMembers(listing: seq<string>, isFile: string -> bool) returns (members: seq<string>)
    ensures members == Filter(listing, IsArchived(isFile))
    ensures forall x :: x in members <==> x in listing && x != ScriptName && isFile(x)
  {
    members := [];
    for i := 0 to |listing|
      invariant members == Filter(listing[..i], IsArchived(isFile))
    {
      var item := listing[i];
      assert listing[..i + 1] == listing[..i] + [item];
      FilterAppend(listing[..i], [item], IsArchived(isFile));
      FilterSingleton(item, IsArchived(isFile));
      if item == ScriptName {
        continue;
      }
      if isFile(item) {
        members := members + [item];
      }
    }
    assert listing[..|listing|] == listing;
  }

  // ---------------------------------------------------------------------------
  // The whole script

  datatype Outcome =
    | PackageFilesMissing(missing: seq<string>)    // exit status 1; nothing written
    | ReadmeMalformed(error: ReadmeError)          // raised; nothing written
    | ArchiveFailed(readme: seq<string>, archivePath: string)
        // creating the archive raised; README.txt was already rewritten
    | Built(readme: seq<string>, archivePath: string, members: seq<string>)

  /** `isFile` answers `os.path.isfile`, `readme` is `readlines()` of
      README.txt, `listing` is `os.listdir(".")`, `readmeDate` and
      `archiveDate` are today's date in the two formats the script uses, and
      `archiveOpens` says whether `zipfile.ZipFile` can create the archive. */
  method Run(isFile: string -> bool, readme: seq<string>, isNumber: string -> bool, bump: string -> string,
             readmeDate: string, archiveDate: string, listing: seq<string>, archiveOpens: bool)
    returns (o: Outcome)
    ensures Package.MissingFiles(isFile) != [] ==> o == PackageFilesMissing(Package.MissingFiles(isFile))
    ensures Package.MissingFiles(isFile) == [] ==>
              var r := BumpReadme(readme, isNumber, bump, readmeDate);
              && (r.ReadmeFailed? ==> o == ReadmeMalformed(r.error))
              && (r.ReadmeBumped? && !archiveOpens ==>
                    o == ArchiveFailed(r.lines, ArchivePath(r.version, archiveDate)))
              && (r.ReadmeBumped? && archiveOpens ==>
                    o == Built(r.lines, ArchivePath(r.version, archiveDate), Filter(listing, IsArchived(isFile))))
  {
    var missing := Package.MissingFiles(isFile);
    if missing != [] {
      return PackageFilesMissing(missing);
    }
    var update := BumpReadme(readme, isNumber, bump, readmeDate);
    if update.ReadmeFailed? {
      return ReadmeMalformed(update.error);
    }
    var path := ArchivePath(update.version, archiveDate);
    if !archiveOpens {
      return ArchiveFailed(update.lines, path);
    }
    var members := ArchiveMembers(listing, isFile);
    o := Built(update.lines, path, members);
  }

  // ---------------------------------------------------------------------------
  // Properties

  /** When build.py is listed the archive has fewer members than the listing has
      entries: the script itself is always one of those left out. */
  lemma {:induction false} ArchiveLeavesOutScript(listing: seq<string>, isFile: string -> bool)
    requires ScriptName in listing
    ensures |Filter(listing, IsArchived(isFile))| < |listing|
  {
    var p := IsArchived(isFile);
    assert Filter(listing, p) == (if p(listing[0]) then [listing[0]] else []) + Filter(listing[1..], p);
    if listing[0] != ScriptName {
      assert ScriptName in listing[1..];
      ArchiveLeavesOutScript(listing[1..], isFile);
    }
  }

  /** The version in the archive name is the version written into README.txt. */
  lemma {:induction false} ArchivePathNamesVersion(version: string, date: string)
    ensures ArchivePath(version, date)[17..17 + |version|] == version
  {
    var p := ArchivePath(version, date);
    assert |"./builds/mycmd_V-"| == 17;
    assert p == "./builds/mycmd_V-" + version + ("_" + date + ".zip");
  }

  /** The rewritten line parses back: the next run of the script reads `version`
      as the version token again, provided it is one word. */
  lemma {:induction false} VersionLineRoundTrip(version: string, date: string)
    requires version != "" && NoSpace(version)
    ensures |Tokens(VersionLine(version, date))| >= 2 && Tokens(VersionLine(version, date))[1] == version
  {
    var tail := " (as on " + date + ")";
    assert NoSpace("Version:");
    assert VersionLine(version, date) == "Version:" + ([' '] + (version + tail)) + "\n";
    SecondTokenOfLine(VersionLine(version, date), "Version:", version, tail);
  }

  /** A line "tag word tail\n" whose tail ends in a visible character has `word`
      as its second token. */
  lemma {:induction false} SecondTokenOfLine(line: string, tag: string, word: string, tail: string)
    requires tag != [] && NoSpace(tag) && word != [] && NoSpace(word)
    requires tail != [] && IsSpace(tail[0]) && !IsSpace(tail[|tail| - 1])
    requires line == tag + ([' '] + (word + tail)) + "\n"
    ensures |Tokens(line)| >= 2 && Tokens(line)[1] == word
  {
    var body := tag + ([' '] + (word + tail));
    var rest := Words(tail);
    assert Strip(line) == body by {
      StripDropsNewline(body);
    }
    assert Words(body) == [tag] + ([word] + rest) by {
      TwoWords(tag, word, tail);
    }
    SecondOfThree(Tokens(line), tag, word, rest);
  }

  lemma SecondOfThree(ws: seq<string>, a: string, b: string, rest: seq<string>)
    requires ws == [a] + ([b] + rest)
    ensures |ws| >= 2 && ws[1] == b
  {
  }

  /** Stripping a line that starts and ends in a visible character drops just its newline. */
  lemma StripDropsNewline(body: string)
    requires body != [] && !IsSpace(body[0]) && !IsSpace(body[|body| - 1])
    ensures Strip(body + "\n") == body
  {
    var line := body + "\n";
    assert TrimLeft(line) == line;
    var r := TrimRight(line);
    assert line[|line| - 2] == body[|body| - 1];
    assert |r| == |line| - 1;
    assert r == line[..|line| - 1] == body;
  }

  /** Bumping twice reads the first bump back: a README rewritten by one run is
      accepted by the next, which bumps the version written by the first. */
  lemma BumpTwice(lines: seq<string>, isNumber: string -> bool, bump: string -> string, d1: string, d2: string)
    requires BumpReadme(lines, isNumber, bump, d1).ReadmeBumped?
    requires var v := BumpReadme(lines, isNumber, bump, d1).version; v != "" && NoSpace(v) && isNumber(v)
    ensures var first := BumpReadme(lines, isNumber, bump, d1);
            BumpReadme(first.lines, isNumber, bump, d2) == ReadmeBumped(first.lines[1 := VersionLine(bump(first.version), d2)], bump(first.version))
  {
    var first := BumpReadme(lines, isNumber, bump, d1);
    VersionLineRoundTrip(first.version, d1);
  }
}
