# mycmd scripts, modelled in Dafny

This project models the three Python scripts that maintain the `mycmd`
personal bash-commands package:

- `convert-eol.py` detects whether a file uses CRLF or LF line endings. When
  the user answers "y", it rewrites the file with the other convention, one line
  at a time.
- `setup.py` first checks that the package's required files are present. It
  then appends three lines to `~/.bashrc`: a marker comment, an `export MYCMD=...`
  line and a `source` line. It does nothing when the export line and the source
  line are both already there.
- `build.py` runs the same required-file check and raises the version on the
  second line of `README.txt`. It then packs every regular file of the package
  directory except itself into `./builds/mycmd_V-<version>_<date>.zip`.

File contents are values:

- bytes (`ConvertEol.byte`) for the converter;
- a string for `~/.bashrc`;
- a list of lines for `README.txt`.

Each driver returns an `Outcome` that names its exit path and the new
contents it writes. The converters are loops over the file's lines, as in the
script. Each is proved equal to the replacement applied to the whole contents,
and the properties of the tool are proved about that whole-content function.

Modules:

- `Text`: the Python `str` operations the scripts use: `strip`, `lower`,
  `split`, `in` and `join`.
- `Seqs`: list comprehension filtering.
- `Package`: the required-file check shared by `setup.py` and `build.py`.
- `ConvertEol`, `Setup` and `Build`: one module per script.

The setup script modelled here guards and appends. It does not replace a marked
block, and it does not normalise the trailing newline. The model follows the
script as written.

## Model

| member | source | states |
|---|---|---|
| `Text.TrimLeft` | convert-eol.py:49 | `lstrip()`: removes a prefix made only of whitespace, so that what remains is empty or starts with a non-space character. |
| `Text.TrimRight` | convert-eol.py:49 | `rstrip()`: removes a suffix made only of whitespace, so that what remains is empty or ends with a non-space character. |
| `Text.Lower` | convert-eol.py:49 | `lower()`: same length, and each character is mapped to lower case independently. |
| `Text.LowerIsY` | convert-eol.py:49-50 | A lowered answer equals "y" exactly when the answer is "y" or "Y". |
| `Text.Strip` | build.py:35 | `strip()`: `lstrip()` followed by `rstrip()`, over Python's whitespace set. |
| `Text.Words` | build.py:36 | `split()`: every token is non-empty and holds no whitespace. With `WordsEmptyIff`, `WordsSkipSpace` and `WordsCons`, this fixes the result of `split()` completely: the maximal non-whitespace runs of the input, in order. |
| `Text.WordsEmptyIff` | build.py:36 | `split()` returns no token exactly when the string is empty or all whitespace. |
| `Text.WordsSkipSpace` | build.py:36 | Leading whitespace does not change the tokens. |
| `Text.WordsCons` | build.py:36 | A string that starts with a non-empty run of non-whitespace, followed by whitespace or the end, has that run as its first token and then the tokens of the rest. |
| `Text.TwoWords` | build.py:36 | "w1 w2 rest" splits into `w1`, `w2` and then the tokens of `rest`. |
| `Text.Contains` | setup.py:44 | Python's substring test `needle in hay`: the needle occurs at some index of the haystack. |
| `Text.Join` | setup.py:49 | `sep.join(parts)`: the parts with `sep` between each pair. `Join3` gives the case of three parts in closed form. |
| `Seqs.Filter` | setup.py:22 | A list comprehension keeps exactly the elements that satisfy its condition, and every kept element satisfies it. |
| `Seqs.FilterAppend` | build.py:54-58 | Filtering distributes over concatenation, so the kept elements stay in their original order. |
| `Package.MissingFiles` | setup.py:20-25 | A file is reported missing exactly when it is required and is not a regular file. The report is empty exactly when all three files exist. |
| `Package.MissingFilesInOrder` | build.py:22-27 | Missing files are reported in the order `.my_custom_bashrc`, `mycmd`, `README.txt`, stated case by case. |
| `ConvertEol.ContainsCrlf` | convert-eol.py:14 | `b"\r\n" in line`: some byte `\r` is directly followed by `\n`. |
| `ConvertEol.CountCrlf` | convert-eol.py:23 | The number of `\r\n` pairs, counted left to right. Pairs cannot overlap. |
| `ConvertEol.ReplaceCrlfWithLf` | convert-eol.py:23 | `bytes.replace(b"\r\n", b"\n")`: scanning left to right, each `\r\n` becomes `\n` and every other byte is copied. This is the reference definition that the converter and the lemmas below are stated against. |
| `ConvertEol.ReplaceLfWithCrlf` | convert-eol.py:31 | `bytes.replace(b"\n", b"\r\n")`: each `\n` becomes `\r\n` and every other byte is copied. This is the reference definition that the converter and the lemmas below are stated against. |
| `ConvertEol.IsYes` | convert-eol.py:49-50 | The answer, stripped and lowered, equals "y". |
| `ConvertEol.Lines` | convert-eol.py:13 | Binary line iteration: the lines concatenate back to the file. Each line is non-empty, and `\n` can occur only as its final byte. Every line except the last ends in `\n`. |
| `ConvertEol.DetectLineEndings` | convert-eol.py:10-16 | The result is "CRLF" exactly when `\r\n` occurs anywhere in the file. |
| `ConvertEol.ConvertCrlfToLf` | convert-eol.py:18-24 | Writing `line.replace(b"\r\n", b"\n")` for every line gives the replacement of `\r\n` by `\n` over the whole file. |
| `ConvertEol.ConvertLfToCrlf` | convert-eol.py:26-32 | Writing `line.replace(b"\n", b"\r\n")` for every line gives the replacement of `\n` by `\r\n` over the whole file. |
| `ConvertEol.ContainsCrlfAppend` | convert-eol.py:13-15 | Content that does not end in `\r` and is followed by more content: the whole holds `\r\n` exactly when one of the two parts does. |
| `ConvertEol.ReplaceCrlfAppend` | convert-eol.py:22-23 | The CRLF-to-LF replacement distributes over a split point that is not preceded by `\r`. |
| `ConvertEol.ReplaceLfAppend` | convert-eol.py:30-31 | The LF-to-CRLF replacement distributes over any split point. |
| `ConvertEol.Run` | convert-eol.py:34-61 | `main` exits with a usage error unless exactly one path is given. It reports a missing file before detecting anything. Otherwise it converts only when the answer is "y" after strip and lower, converting CRLF to LF when CRLF is detected and LF to CRLF when it is not. |
| `ConvertEol.IsYesIff` | convert-eol.py:49-50 | The answer means yes exactly when, once stripped, it is "y" or "Y". |
| `ConvertEol.RoundTrip` | convert-eol.py:23-31 | Converting LF to CRLF and then CRLF to LF gives back the original bytes, for any content. |
| `ConvertEol.ReplaceLfLength` | convert-eol.py:31 | LF to CRLF adds exactly one byte per `\n`. |
| `ConvertEol.ReplaceCrlfLength` | convert-eol.py:23 | CRLF to LF removes exactly one byte per `\r\n`. |
| `ConvertEol.CountCrlfPositive` | convert-eol.py:14 | The number of `\r\n` pairs is positive exactly when the detector would find one. |
| `ConvertEol.ReplaceCrlfIdentityIff` | convert-eol.py:23 | CRLF to LF leaves the content unchanged exactly when it contains no `\r\n`. Lone `\r` bytes are kept. |
| `ConvertEol.ReplaceCrlfIdentity` | convert-eol.py:23 | Content without `\r\n` is unchanged by CRLF to LF. |
| `ConvertEol.ReplaceCrlfOnLine` | convert-eol.py:22-23 | Within one line, CRLF to LF only drops a `\r` that comes just before the final `\n`. |
| `ConvertEol.ReplaceLfOnLine` | convert-eol.py:30-31 | Within one line, LF to CRLF only inserts a `\r` before the final `\n`. |
| `ConvertEol.ReplaceLfMakesCrlf` | convert-eol.py:26-32 | After LF to CRLF, any content that had a `\n` is detected as "CRLF". |
| `ConvertEol.ReplaceLfNotIdempotent` | convert-eol.py:31 | LF to CRLF is not idempotent: an existing `\r\n` becomes `\r\r\n`. |
| `ConvertEol.ReplaceCrlfMayLeaveCrlf` | convert-eol.py:23 | CRLF to LF turns `\r\r\n` into `\r\n`, so the result can still be detected as "CRLF". |
| `Setup.MarkerLine` | setup.py:35 | The marker comment: a leading newline, then the timestamp and the attribution, byte for byte. |
| `Setup.ExportLine` | setup.py:36 | `export MYCMD="<package dir>"`. The constant `Setup.SourceLine` is the line of setup.py:37. |
| `Setup.AlreadySetUp` | setup.py:44 | The duplicate guard: both the export line and the source line occur as substrings of the current contents. The marker line is not checked. |
| `Setup.LinesToAdd` | setup.py:34-38 | Exactly three lines are added. |
| `Setup.AppendedText` | setup.py:49 | The appended text is the marker, the export line and the source line, joined by `\n`. It starts with a newline and ends with the source line. |
| `Setup.Run` | setup.py:20-49 | Missing package files stop the script before `~/.bashrc` is read. An unreadable `~/.bashrc` stops it before anything is written. It changes nothing exactly when both guarded lines are already present. Otherwise the new contents are the old contents followed by the appended text. |
| `Setup.AppendKeepsOldContents` | setup.py:48-49 | An append keeps the old contents as a strict prefix. The added text starts with a newline and ends with the source line. |
| `Setup.AppendedTextIsSetUp` | setup.py:44-49 | After an append, both guarded lines occur in the file. |
| `Setup.SecondRunChangesNothing` | setup.py:44-46 | Idempotence: running twice from the same directory appends only once, whatever the timestamps of the two runs. |
| `Setup.GuardIgnoresTimestamp` | setup.py:44 | The marker line plays no part in the guard: whether a run appends does not depend on the timestamp. |
| `Setup.OneLineIsNotEnough` | setup.py:44 | When either guarded line is absent, the run appends. |
| `Setup.NewDirectoryAppendsAgain` | setup.py:36-44 | Setting up from "/p" and then from "/q" appends two blocks, because the export line names the package directory. |
| `Build.Tokens` | build.py:35-36 | `lines[1].strip().split()`. |
| `Build.VersionLine` | build.py:40 | The new second line ends in `\n`. When the version and the date hold no newline, the line has no other newline. |
| `Build.BumpReadme` | build.py:33-41 | The step fails when there are fewer than two lines, when the second line has fewer than two tokens, and when the second token is not a number, each exactly in that case. On success only `lines[1]` changes: it becomes the version line for the bumped second token, and the number of lines is kept. |
| `Build.VersionLineRoundTrip` | build.py:35-40 | For a one-word version, the second token of the line written back is that version. |
| `Build.SecondTokenOfLine` | build.py:35-36 | Any line of the form "tag word tail\n" whose tail ends in a visible character has `word` as its second token after `strip().split()`. |
| `Build.StripDropsNewline` | build.py:35 | `strip()` of a line that starts and ends with a visible character drops only its newline. |
| `Build.BumpTwice` | build.py:33-41 | A README rewritten by one build is accepted by the next, and the next build bumps the version that the first one wrote. |
| `Build.ArchivePath` | build.py:51 | The archive path starts with `./builds/mycmd_V-` and ends with `.zip`. |
| `Build.ArchivePathNamesVersion` | build.py:51 | The version in the archive name, right after the prefix, is the version written to README. |
| `Build.IsArchived` | build.py:55-57 | An entry is archived when it is not `build.py` and is a regular file. |
| `Build.ArchiveMembers` | build.py:53-58 | The archive holds exactly the listed regular files other than `build.py`, in listing order. |
| `Build.ArchiveLeavesOutScript` | build.py:54-56 | When `build.py` is in the listing, the archive has fewer members than the listing has entries. |
| `Build.Run` | build.py:22-58 | Missing package files stop the build before README is touched. A malformed README raises before anything is written. README is rewritten before the archive is created, so a failure to create the archive leaves README already bumped. On success the archive holds every listed regular file except `build.py`. |

## Left out

- File I/O is not modelled as effects. The file contents, `os.path.isfile`, `os.listdir`, `os.getcwd`, the user's answer and `sys.argv` are inputs. The path of `~/.bashrc` is implicit.
- The temporary file and the `shutil.move` that replace the converted file, and what happens when either fails, are not modelled. Only the resulting contents are.
- `Build.BumpReadme`: `float(...)` and `round(v + 0.1, 1)` are floating point. They are the parameters `isNumber` (does `float` accept the token) and `bump` (the text of the raised version), so the model does not state how the number is formatted.
- `Build.Run`: the dates come from `datetime.today()` and are two inputs. The README date uses the format "%b %d, %Y" and the archive date uses "%b-%d-%Y". It is not proved that they name the same day.
- `Build.Run`: a README that cannot be read or written, and a `./builds` directory that is missing, are not separate outcomes. Only a failure to create the archive (`archiveOpens`) is.
- `Build.ArchiveMembers`: the zip format, compression and file contents are not modelled. The archive is its path and its list of member names.
- `Setup.Run`: `datetime.now()` formatted as "%b-%d, %Y" is the input `timestamp`.
- `Text.Lower`: lower-cases ASCII letters only. Python's `lower()` also lowers non-ASCII letters, which the model leaves unchanged.
- Console messages, ANSI colours and the exact exit statuses are not modelled. The `Outcome` constructors say which way each script left.
- The `__name__ != "__main__"` guards in `setup.py` and `build.py` belong to the Python module system and are not modelled.
- Reading text files in the platform's default encoding is not modelled. The text scripts work on strings of characters.
- `Build.BumpReadme`: text mode translates newlines, and the model does not. `open(..., "r")` turns `\r\n` and a lone `\r` into `\n` on reading (build.py:33-34), and writing turns `\n` into the platform's line separator (build.py:43-44). "Only `lines[1]` changes" therefore holds for the list of lines, not for the file's bytes: the line endings of the other lines, as stored in the file, can change too.
- `Setup.Run`: the same translation applies. The guard and the new contents are stated for the decoded text (setup.py:41-42). The real file gets the appended text added to its stored bytes (setup.py:48-49), with each `\n` written as the platform's line separator.
- `ConvertEol.Run`: `input()` raising `EOFError` at end of input (convert-eol.py:49, 56) is not an outcome. The answer is always a string.
- `Setup.Run`: an append that fails part way (setup.py:48-49) is not an outcome. Only an unreadable `~/.bashrc` is.
