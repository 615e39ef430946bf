# genpdf-butler in Dafny

A model of the two core routines of genpdf-butler, a tool that turns ChordPro song
files (`.chopro`, `.cho`) into PDFs by calling the external `chordpro` program.

- **`PatchColors`** (`src/genpdf_butler/PatchTextColor.py`) rewrites OnSong colour
  markers as ChordPro directives. A line that contains `&blue` is a marker line.
  Each maximal run of marker lines gets `{textcolour: blue}\n` before its first line
  and `{textcolour}\n` after its last line, or at the end of the file. Inside a run,
  every match of `.?&blue:?/? *` is removed from the line. The stripped line keeps
  whatever line end it had, so a last line `&blue: text` without a newline is
  written as `text`.
- **`createPDFs`** (`src/genpdf_butler/GenPDF.py`) plans the `chordpro` calls for a
  target. A missing target gives the message `no such file or folder '<target>'`.
  A directory gives one call per entry of its recursive scan whose lowercased
  `splitext` extension is `.chopro` or `.cho`. Any other existing target is treated
  as a single file and gives one call when its extension is recognised. Every call
  has the same 19-argument layout: 17 fixed options (`showchords` at position 3, `pagesize`
  at position 14), then `--output=<pdf>`, then the source path. `<pdf>` is the path
  with every occurrence of its lowercased extension replaced by `.pdf`, so a
  directory named like the extension is renamed in it too. A path whose only `.` starts
  an extension not written in lower case, such as `song.CHOPRO`, does not contain its
  lowercased extension, and its output option names the source file itself.

Files:
- `wrappers.dfy`: `Option`.
- `strings.dfy`: the Python `str` operations used here: `startswith`, `in`, ASCII
  `lower`, `rfind` and `replace`.
- `seqs.dfy`: order-preserving `Filter` and `Map` over sequences.
- `line_pass.dfy`: the flag-driven pass of lines 19-36, written for any marker test
  and any strip step, with the facts about directive placement.
- `patch_text_color.dfy`: the marker test, the `re.sub` strip step, the imperative
  pass `PatchFile` and the file loop `PatchColors`.
- `gen_pdf.dfy`: `ext`, recognition, the output path, the argument list, and the
  dispatch methods `ConvertOne`, `ConvertEntries` and `CreatePDFs`.

The filesystem is an input. A file is the list of its lines as `readlines` returns
them. The result of `PatchColors` is the list of strings written back. A target is
`Missing`, `Directory(entries)` (the scan order of `rglob("*")`) or `SingleFile`. The
result of `createPDFs` is the message or the argument lists of the calls, in order.

## Model

| member | source | states |
|---|---|---|
| PatchTextColor.IsMarkerLine | src/genpdf_butler/PatchTextColor.py:22-25 | `onsongColor.search(line)`, the test both ifs make, as a search of `&blue:?` at every position. `MarkerLineIffContainsBlue` characterises it. |
| PatchTextColor.MarkerLineIffContainsBlue | src/genpdf_butler/PatchTextColor.py:12 | `onsongColor.search(line)` succeeds exactly when the line contains `&blue`, because the colon is optional. |
| PatchTextColor.MarkerMatch | src/genpdf_butler/PatchTextColor.py:30 | The regex match of `.?&blue:?/? *` at the start of a string, with Python's backtracking on `.?`. It is at least five characters long and never crosses a newline. `MarkerMatchLongest` characterises it against the pattern's language. |
| PatchTextColor.MarkerMatchLongest | src/genpdf_butler/PatchTextColor.py:30 | The match at a position is the longest prefix in the language of `.?&blue:?/? *`. There is no match exactly when no prefix is in that language. |
| PatchTextColor.MarkerMatchInPattern | src/genpdf_butler/PatchTextColor.py:30 | What the matcher takes is in the language of `.?&blue:?/? *`. |
| PatchTextColor.MarkerMatchMaximal | src/genpdf_butler/PatchTextColor.py:30 | No longer prefix is in the language, and there is none at all when the matcher finds nothing. |
| PatchTextColor.Strip | src/genpdf_butler/PatchTextColor.py:30 | `re.sub(".?&blue:?/? *", "", line)` never lengthens a line, and a line ending in a newline keeps that newline. |
| PatchTextColor.StripChangesExactlyMarked | src/genpdf_butler/PatchTextColor.py:30 | The substitution changes a line exactly when the line contains `&blue`. |
| PatchTextColor.StripUnmarked | src/genpdf_butler/PatchTextColor.py:30 | A line without `&blue` is returned unchanged. |
| PatchTextColor.StripMarkedShortens | src/genpdf_butler/PatchTextColor.py:30 | A line with `&blue` becomes strictly shorter. |
| PatchTextColor.NoAmpersandUnchanged | src/genpdf_butler/PatchTextColor.py:30 | A line without `&` is returned unchanged. |
| PatchTextColor.StripLeadingMarker | src/genpdf_butler/PatchTextColor.py:30 | A leading `&blue: ` before a non-space character is removed in one match, and the rest of the line is stripped as usual. |
| PatchTextColor.StripMarkedTestLine | tests/test_patchtextcolor.py:33 | `&blue: This is blue text\n` becomes `This is blue text\n`. |
| LinePass.Pass | src/genpdf_butler/PatchTextColor.py:19-36 | The flag-driven pass over a file's lines, for any marker test and strip step. `PassCons`, `PassIsReference`, `DirectivesAlternate`, `TextsAreBodies` and `PassLength` characterise it. |
| LinePass.PassCons | src/genpdf_butler/PatchTextColor.py:21-33 | One step of the loop. After a line, `addColor` is whether that line is a marker line. The opening directive comes before a marker line after a non-marker line, and the closing one comes before a non-marker line after a marker line. The line itself is then written stripped when it is a marker line and unchanged otherwise. |
| LinePass.PassIsReference | src/genpdf_butler/PatchTextColor.py:19-36 | What the pass writes equals a positional reference that needs no flag: every line in order, marker lines stripped; an opening directive just before the first line of each run; a closing directive just before the first line after each run, or last if the file ends inside a run. |
| LinePass.PassFrom | src/genpdf_butler/PatchTextColor.py:19-36 | From any line on, the pass with the flag it has there writes the reference's chunks from that line on. |
| LinePass.DirectivesAlternate | src/genpdf_butler/PatchTextColor.py:22-27 | The directives that are written alternate, opening first, one opening/closing pair per run. So each run is opened exactly once, closed exactly once, and the two counts are equal. |
| LinePass.DirectivesFrom | src/genpdf_butler/PatchTextColor.py:22-27 | From any line on, the directives are a pending close when the flag is up, then one pair per run that is still to come. |
| LinePass.TextsAreBodies | src/genpdf_butler/PatchTextColor.py:29-33 | Apart from the directives, the output is the input's lines in order, each one once: stripped in a run, unchanged outside. |
| LinePass.PassLength | src/genpdf_butler/PatchTextColor.py:19-36 | The output is the input's length plus two for every run of marker lines. |
| LinePass.PassUnmarked | src/genpdf_butler/PatchTextColor.py:19-36 | With no marker line, every line is written unchanged and nothing else is written. |
| LinePass.PassOneMarkedLine | src/genpdf_butler/PatchTextColor.py:19-36 | A marker line between two other lines is written with the opening directive before it, the closing one after it, and stripped. The other two lines are kept. |
| PatchTextColor.Patch | src/genpdf_butler/PatchTextColor.py:19-36 | The strings written back for a file: the pass with the `&blue` test and the strip step, each directive rendered as `{textcolour: blue}\n` or `{textcolour}\n`. `PatchFile` is proved equal to it. |
| PatchTextColor.PatchLength | src/genpdf_butler/PatchTextColor.py:19-36 | For the `&blue` marker: the number of written strings is the number of lines plus two per run. |
| PatchTextColor.UnmarkedInputUnchanged | src/genpdf_butler/PatchTextColor.py:19-36 | A file in which no line contains `&blue` is written back exactly as it was read. |
| PatchTextColor.PatchFile | src/genpdf_butler/PatchTextColor.py:19-36 | The imperative loop, with `addColor` and the writes in source order, writes exactly `Patch(srcLines)`. Its invariant ties `addColor` to whether the previous line contains `&blue`. |
| PatchTextColor.PatchColors | src/genpdf_butler/PatchTextColor.py:14-36 | Every collected file is rewritten independently, with the flag reset, as `Patch` of its lines. |
| PatchTextColor.PatchOneMarkedLine | tests/test_patchtextcolor.py:33-54 | Three lines of which only the middle one contains `&blue` are written as the first line, the opening directive, the stripped middle line, the closing directive, and the last line. |
| PatchTextColor.PatchUnterminatedMarkerLine | src/genpdf_butler/PatchTextColor.py:19-36 | A file of one line `&blue: ` + text, with no newline and no `&` in the text, is written as the opening directive, the text, and the closing directive. |
| PatchTextColor.PatchBlueText | src/genpdf_butler/PatchTextColor.py:19-36 | The file `&blue: text` is written as `{textcolour: blue}\n`, `text`, `{textcolour}\n`. |
| GenPDF.Basename | src/genpdf_butler/GenPDF.py:29 | `os.path.basename` on POSIX: the longest suffix without a `/`. Its contract bounds the length and excludes `/`. `BasenameIsLastComponent` proves that it is a suffix and follows the last `/`. |
| GenPDF.BasenameIsLastComponent | src/genpdf_butler/GenPDF.py:29 | The base name is what follows the last `/`, or the whole path when there is none. |
| GenPDF.SplitExt | src/genpdf_butler/GenPDF.py:29 | The extension part of `os.path.splitext`: from the last `.` when something other than dots comes before it, else empty. `SplitExtCharacterized` characterises it. |
| GenPDF.SplitExtCharacterized | src/genpdf_butler/GenPDF.py:29 | `splitext` gives an empty extension exactly when no `.` follows a character that is not a dot. Otherwise the extension runs from the last `.` to the end. |
| GenPDF.Ext | src/genpdf_butler/GenPDF.py:28-29 | `ext(p)`: the lowercased `splitext` extension of the base name. `ExtCharacterized` characterises it. |
| GenPDF.ExtCharacterized | src/genpdf_butler/GenPDF.py:28-29 | `ext(p)` is empty exactly when the base name has no extension. Otherwise it is the lowercased text from the base name's last `.`. |
| GenPDF.LoweredExtensions | src/genpdf_butler/GenPDF.py:31 | The two recognised strings are exactly the lowercased elements of `extensions`. |
| GenPDF.IsRecognized | src/genpdf_butler/GenPDF.py:37 | `ext in (x.lower() for x in extensions)`, the test at lines 37 and 44. `LoweredExtensions` and `RecognizedIff` characterise it. |
| GenPDF.RecognizedIff | src/genpdf_butler/GenPDF.py:37 | A path is converted exactly when its base name ends in `.chopro` or `.cho`, in any letter case, after at least one character that is not a dot. |
| GenPDF.PlainNameConverted | src/genpdf_butler/GenPDF.py:39 | A stem with no dot followed by `.chopro` or `.cho` is converted, and its output path is the stem followed by `.pdf`. |
| GenPDF.OutputPath | src/genpdf_butler/GenPDF.py:39 | `path.replace(ext, ".pdf")`, also at line 46. `PlainNameConverted`, `DirectoryNamedLikeExtension` and `UpperCaseExtensionKeepsPath` characterise it. |
| GenPDF.UpperCaseExtensionKeepsPath | src/genpdf_butler/GenPDF.py:46 | `stem.CHOPRO` is converted, but the path does not contain the lowercased `ext`. So its output path is the source path itself. |
| GenPDF.DirectoryNamedLikeExtension | src/genpdf_butler/GenPDF.py:39 | Every occurrence of `ext` is replaced, so in `d.cho/s.cho` the directory name is rewritten too: the output path is `d.pdf/s.pdf`. |
| GenPDF.ExtUnderDirectory | src/genpdf_butler/GenPDF.py:28-29 | A dot-free name with a recognised ending inside any directory has that ending as its `ext`, whatever dots the directory name has. |
| Strings.Replace | src/genpdf_butler/GenPDF.py:39 | Python's `str.replace`: non-overlapping occurrences, left to right. `ReplaceAbsent`, `ReplaceAfterPrefix`, `ReplaceTwice` and `ReplaceEnding` characterise it. |
| Strings.ReplaceAbsent | src/genpdf_butler/GenPDF.py:39 | `replace` with a needle that does not occur returns its argument. |
| Strings.ReplaceEnding | src/genpdf_butler/GenPDF.py:46 | `replace` of a needle that occurs only as the ending swaps just that ending. |
| Strings.ReplaceAfterPrefix | src/genpdf_butler/GenPDF.py:39 | A prefix in which the needle cannot start is copied unchanged, and the rest is replaced as usual. |
| Strings.ReplaceTwice | src/genpdf_butler/GenPDF.py:39 | Two occurrences separated by text in which the needle cannot start are both replaced. |
| GenPDF.Settings | src/genpdf_butler/GenPDF.py:7-25 | The list `chordproSettings`. `SettingsLayout` characterises it. |
| GenPDF.SettingsLayout | src/genpdf_butler/GenPDF.py:7-25 | `chordproSettings` has 17 entries, with `showchords` at index 3 and `pagesize` at index 14. Every other entry is the same whatever the two parameters are. |
| GenPDF.Invocation | src/genpdf_butler/GenPDF.py:40-42 | The argument list `chordproSettings + ["--output=" + pdf_output, path]`, also at lines 47-49. `InvocationLayout` characterises it. |
| GenPDF.InvocationLayout | src/genpdf_butler/GenPDF.py:40-42 | A call has 19 arguments: the settings, then `--output=<pdf>` at index 17, then the path at index 18. |
| GenPDF.RecognizedEntries | src/genpdf_butler/GenPDF.py:35-37 | The converted entries are those of the scan that are recognised, and all of them are. |
| GenPDF.CallsSnoc | src/genpdf_butler/GenPDF.py:35-42 | Scanning one more entry appends its call, if it has one, at the end. |
| GenPDF.ConvertOne | src/genpdf_butler/GenPDF.py:37-42 | For one path, the method records `Invocation(p)` when `ext(p)` is recognised and nothing otherwise. |
| GenPDF.ConvertEntries | src/genpdf_butler/GenPDF.py:33-42 | The directory loop records the call of each recognised entry, in scan order. |
| GenPDF.Plan | src/genpdf_butler/GenPDF.py:6-51 | What `createPDFs` does for each kind of target. `MissingTargetReported`, `DirectoryDispatch` and `SingleFileDispatch` characterise it, and `CreatePDFs` is proved equal to it. |
| GenPDF.CreatePDFs | src/genpdf_butler/GenPDF.py:6-51 | The whole routine gives exactly the planned outcome for the missing, directory and single-file cases. |
| GenPDF.MissingTargetReported | src/genpdf_butler/GenPDF.py:50-51 | A missing target gives no call, only the message `no such file or folder '` + target + `'`. |
| GenPDF.SingleFileDispatch | src/genpdf_butler/GenPDF.py:43-49 | A single file gives one call exactly when it is recognised and none otherwise. That call's last argument is the target and its output option is `--output=` followed by the output path. |
| GenPDF.DirectoryDispatch | src/genpdf_butler/GenPDF.py:33-42 | A directory gives one call per recognised entry. The k-th call converts the k-th recognised entry, which is its last argument. |
| GenPDF.SingleSongFileMakesOneCall | tests/test_genpdf.py:46-114 | `test.chopro` and `test.cho` give exactly one call: the settings for the given parameters, `--output=test.pdf`, then the file. |
| GenPDF.SingleTxtFileMakesNoCall | tests/test_genpdf.py:166-177 | `test.txt` gives no call. |
| GenPDF.TxtNotRecognized | tests/test_genpdf.py:166-177 | A dot-free stem followed by `.txt` is not recognised. |
| GenPDF.UpperCaseFileMakesOneCall | tests/test_genpdf.py:25-44 | A file named with `.CHOPRO` gives one call. |
| GenPDF.DirectoryWithTwoSongs | tests/test_genpdf.py:116-138 | A directory holding `song1.chopro`, `song2.cho` and `readme.txt` gives two calls of 19 arguments each, for the two songs in scan order. |

## Left out

- File discovery (`Path.rglob` in both files) is not modelled. `PatchColors` takes the contents of the collected files, and a directory target takes its scan result as `entries`, in the scan's order.
- The order in which `PatchColors` collects files (every `.chopro` before every `.cho`) is not modelled.
- Reading and writing files, the `try`/`except` that reports a failed file, and `encoding="utf-8"` are not modelled. They are I/O, and a file is its list of lines.
- Newline translation on reading is not modelled. `open(..., mode="r")` turns `\r\n` into `\n`, so a CRLF file with no marker is written back with LF line ends. `PatchTextColor.UnmarkedInputUnchanged` is about the strings `readlines` returns, not the bytes on disk.
- `subprocess.run` is not run. Each call is recorded as its argument list. The progress `print`s are not modelled; only the missing-target message is.
- `os.path.exists` and `os.path.isdir` are not called. Their answers are the `Target` input.
- `main`, argument parsing and git handling are not part of this model.
- The test suite calls `PatchColors(path)` with an argument, but the function as written takes none. The model follows the function.
- `str.lower` is modelled on ASCII letters only. Python also lowercases non-ASCII letters.
- `os.path.basename` is modelled with POSIX `/` separators only.
- Platform case sensitivity of file names is not modelled.
- `Strings.Replace` defines Python's behaviour for an empty needle (the replacement goes before every character and at the end). `OutputPath` never reaches that case for a converted path, because a recognised extension is not empty, so no lemma states it.
- PatchTextColor.StripMarkedTestLine: the test's checks that `&blue:` is absent from the output are proved only for the test's line. The substitution can put `&blue` back together from the text around a match, so they do not hold for every line.
- GenPDF.DirectoryWithTwoSongs: the lemma fixes one scan order, `song1.chopro`, `song2.cho`, `readme.txt`. The call count is not proved for the other orders `rglob` may return.
- The test scenarios are stated for any stem without a dot in place of the literal names `test`, `song1`, `song2` and `readme`. The temporary-file names of the `.CHOPRO` test are taken to be of that form.
