# PathHelpers of FileConverter, modelled in Dafny

`PathHelpers` is the static class of FileConverter that takes Windows paths
apart and classifies files by extension. This project models all of it except
the user-data-folder helper. The model covers:

- the path grammar check `IsPathValid`;
- the decomposition into `GetDrive`, `GetDirectories` and `GetFileName`;
- the drive-letter queries `IsPathDriveLetterValid`, `GetPathDriveLetter` and `IsOnCDDrive`;
- the audio-CD track number `GetCDATrackNumber`;
- the collision-free name `GenerateUniquePath`;
- the tables `GetExtensionCategory`, `IsOutputTypeCompatibleWithCategory` and `InputCategoryNames`.

The class works through five fixed .NET regular expressions. Each one becomes
a scanner over `string` that encodes the pattern's outcome (anchored or
leftmost, greedy or right-to-left), together with a declarative description:

- `pathRegex` becomes `PathGrammar.MatchesPathPattern` / `IsPathValid`, described by `InGrammar`.
- `directoryRegex` becomes `RootLength` and `BackslashRuns`, described by `IsRoot`.
- `filenameRegex` becomes `FileNameStartBefore`.
- `driveLetterRegex` becomes `DriveLetters.FindDriveLetter`, described by `DriveLetterAt`.
- `cdaTrackNumberRegex` becomes `TrackNumbers.TrackDigitsAt` and `FindTrack`, described by `TrackMatchAt`.

Modules, one concept each:

- `Wrappers`: Option and Result.
- `Chars`: the character classes of the patterns.
- `Decimal`: the decimal text written by `string.Format` and read by `int.Parse`.
- `PathGrammar`: `IsPathValid`, `GetFileName`, `GetDrive` and `GetDirectories`.
- `DriveLetters`: drive-letter detection and the CD check.
- `TrackNumbers`: `GetCDATrackNumber`.
- `UniquePaths`: `Path.GetExtension` and `GenerateUniquePath`.
- `Categories`: the two tables and the category names.

`GetDirectories`, `IsOnCDDrive` and `GenerateUniquePath` are loops in the
source, so they are methods here. All other operations are functions.

`IsOnCDDrive` gets the machine's CD drive letters as a parameter. In the
source they come from `Ripper.CDDrive.GetCDDriveLetters()`, which is not part
of this model.

`GenerateUniquePath` gets the set of existing paths as a parameter, a finite
`set<string>`; the source calls `System.IO.File.Exists`. The `OutputType`
enumeration is not part of this model either. A datatype stands in for it,
with the thirteen values the switch names plus `Unlisted` for the `default`
branch.

Points where the code does something a reader might not expect; the model
follows the code:

- Only the file name may not start with `.`; directory segments such as `.`
  and `..` are accepted (`DotSegmentsAccepted`).
- The extension is what `Path.GetExtension` returns: it is empty when a `\`,
  `/` or `:` comes after the last dot, or when the dot is the last character.
  It is not a split at the last `.`.
- A path that `directoryRegex` does not match gives a null drive and no
  directories. No error is raised.
- Drive letters and track names are searched anywhere in the path (the
  patterns are unanchored), not only at the start.
- Folders captured by `GetDirectories` may be empty. They may hold any
  character except `\`; a UNC share name is the first folder.
- `IsPathValid` also accepts a path that ends in one line feed (see Findings).

## Model

| member | source | states |
|---|---|---|
| PathGrammar.IsPathValid | Application/FileConverter/PathHelpers.cs:55-58 | IsPathValid(p) holds exactly when p is root + (segment + `\`)* + file name, or is such a path followed by one line feed. The root is `\\server\` or `X:\`. Segments are non-empty runs of characters other than `\ / : * ? " < > \|` CR LF. The file name is such a run that does not start with `.` |
| PathGrammar.IsPathValidExact | Application/FileConverter/PathHelpers.cs:12 | The path pattern anchored at the true end of the input accepts exactly the paths of the grammar (corrected form of IsPathValid) |
| PathGrammar.TrailingNewlineAccepted | Application/FileConverter/PathHelpers.cs:55-58 | As written, `C:\a.txt` + LF is accepted by IsPathValid although it is not in the grammar and IsPathValidExact rejects it |
| PathGrammar.DotSegmentsAccepted | Application/FileConverter/PathHelpers.cs:12 | `C:\..\.\a.txt` is valid: directory segments may be `.` and `..` |
| PathGrammar.DotFileNameRejected | Application/FileConverter/PathHelpers.cs:12 | A path whose file name starts with `.` is invalid, with or without one final line feed |
| PathGrammar.HiddenFileNameRejected | Application/FileConverter/PathHelpers.cs:12 | `C:\dir\.hidden` is invalid |
| PathGrammar.AcceptedPathShape | Application/FileConverter/PathHelpers.cs:12 | A path the pattern accepts has a non-empty file name not starting with `.` and ends in a path character |
| PathGrammar.RootLength | Application/FileConverter/PathHelpers.cs:14 | The root alternation found at the start of p always spans a prefix of p that is a root |
| PathGrammar.RootLengthExact | Application/FileConverter/PathHelpers.cs:14 | At most one prefix of a path is a root, and the root alternation finds exactly that one |
| PathGrammar.MatchDirectoryPattern | Application/FileConverter/PathHelpers.cs:14 | A match of the anchored directory pattern has a drive that is a root prefix of the path, and folders that hold no `\` |
| PathGrammar.GetDrive | Application/FileConverter/PathHelpers.cs:67-74 | A drive that is returned is a prefix of the path and is a root |
| PathGrammar.DriveIsRootPrefix | Application/FileConverter/PathHelpers.cs:67-74 | GetDrive(p) is Some(p[..n]) exactly when p[..n] is a root; otherwise (no root prefix) it is null |
| PathGrammar.DirectoryCaptures | Application/FileConverter/PathHelpers.cs:76-85 | No match gives no folders; every folder capture is free of `\` |
| PathGrammar.GetDirectories | Application/FileConverter/PathHelpers.cs:76-91 | The loop yields all folder captures in order. No drive gives an empty sequence. Otherwise drive + (folder + `\`)* + GetFileName(p) == p, and no folder holds `\`. The result is exactly the folder captures of the match, DirectoryCaptures(p) |
| PathGrammar.SplitJoinsBack | Application/FileConverter/PathHelpers.cs:60-91 | Whenever GetDrive finds a root, drive + directories + file name rebuild the path |
| PathGrammar.BackslashRunsJoin | Application/FileConverter/PathHelpers.cs:14 | The backslash-terminated runs followed by the file name rebuild the text after the drive |
| PathGrammar.ValidPathDecomposes | Application/FileConverter/PathHelpers.cs:12-14 | A path the pattern accepts has a drive, its folders are all non-empty segments, and its file name is a valid file name |
| PathGrammar.ComposedPathDecomposes | Application/FileConverter/PathHelpers.cs:60-91 | Joining a root, segments and a file name gives a path that IsPathValid's pattern accepts. GetDrive, GetDirectories and GetFileName return exactly those parts |
| PathGrammar.GetFileName | Application/FileConverter/PathHelpers.cs:60-65 | GetFileName(p) is never null. It is a suffix of p with no `\`, preceded by `\` unless it is the whole path |
| PathGrammar.FileNameUnique | Application/FileConverter/PathHelpers.cs:60-65 | Any suffix with the properties above is GetFileName(p), so they define it |
| PathGrammar.FileNameAfterBackslash | Application/FileConverter/PathHelpers.cs:60-65 | Putting a prefix that ends in `\` in front of a path does not change its file name |
| PathGrammar.WholeFileName | Application/FileConverter/PathHelpers.cs:60-65 | A path without `\` is its own file name (`/` does not separate) |
| DriveLetters.FindDriveLetter | Application/FileConverter/PathHelpers.cs:10 | The first index at or after `from` where `[a-zA-Z]:\` occurs, or none when it occurs nowhere from there |
| DriveLetters.IsPathDriveLetterValid | Application/FileConverter/PathHelpers.cs:16-19 | True exactly when `[a-zA-Z]:\` occurs somewhere in the path |
| DriveLetters.GetPathDriveLetter | Application/FileConverter/PathHelpers.cs:21-24 | "" exactly when no `[a-zA-Z]:\` occurs. Otherwise the three characters of the leftmost occurrence |
| DriveLetters.DriveLetterShape | Application/FileConverter/PathHelpers.cs:21-24 | The result is "" or a letter, `:` and `\` |
| DriveLetters.ValidIffLetterFound | Application/FileConverter/PathHelpers.cs:16-24 | IsPathDriveLetterValid(p) exactly when GetPathDriveLetter(p) is not empty |
| DriveLetters.DriveLetterStableUnderAppend | Application/FileConverter/PathHelpers.cs:21-24 | Appending text to a path that has a drive letter does not change its drive letter |
| DriveLetters.ValidPathDriveLetter | Application/FileConverter/PathHelpers.cs:10-12 | For a path the grammar accepts, the drive letter is its `X:\` root; a UNC path has none |
| DriveLetters.IsOnCDDrive | Application/FileConverter/PathHelpers.cs:26-46 | False when the path has no drive letter. Otherwise true exactly when the drive letter's first character is, case-sensitively, one of the given CD drive letters |
| TrackNumbers.TrackDigitsAtExact | Application/FileConverter/PathHelpers.cs:11 | At each start index the track pattern matches with at most one digit-group length, the maximal run of digits |
| TrackNumbers.TrackDigitsUnique | Application/FileConverter/PathHelpers.cs:11 | Two matches at the same index capture the same digits |
| TrackNumbers.FindTrack | Application/FileConverter/PathHelpers.cs:50 | The leftmost match at or after `from`, or none when there is none |
| TrackNumbers.GetCDATrackNumber | Application/FileConverter/PathHelpers.cs:48-53 | FormatException exactly when no `X:\Track<digits>.cda` occurs. Otherwise the result comes from the leftmost occurrence: the decimal value of its digits, or OverflowException when that value exceeds int.MaxValue |
| TrackNumbers.ParseInt32 | Application/FileConverter/PathHelpers.cs:52 | int.Parse of a digit string: FormatException exactly for the empty text, OverflowException exactly for a value past int.MaxValue, otherwise the decimal value, which lies in 0 .. int.MaxValue |
| TrackNumbers.TrackNumberInRange | Application/FileConverter/PathHelpers.cs:52 | A returned track number lies in 0 .. int.MaxValue |
| TrackNumbers.TrackFileName | Application/FileConverter/PathHelpers.cs:48-53 | `X:\Track` + digits + `.cda` gives int.Parse of those digits |
| TrackNumbers.TrackFileRoundTrip | Application/FileConverter/PathHelpers.cs:48-53 | The track file for number n gives back n, or OverflowException when n exceeds int.MaxValue |
| TrackNumbers.LeadingZeroTrack | Application/FileConverter/PathHelpers.cs:52 | `D:\Track07.cda` gives 7 |
| TrackNumbers.NoTrackRaisesFormatError | Application/FileConverter/PathHelpers.cs:50-52 | `D:\Song.mp3` raises FormatException |
| Decimal.FormatNat | Application/FileConverter/PathHelpers.cs:100 | The text string.Format writes for an index is a non-empty run of decimal digits without a leading zero (except for 0 itself) |
| Decimal.ParseFormatRoundTrip | Application/FileConverter/PathHelpers.cs:100 | Parsing the decimal text `string.Format` writes for n gives back n |
| Decimal.FormatNatInjective | Application/FileConverter/PathHelpers.cs:100 | Distinct indices are written as distinct text |
| UniquePaths.ExtensionScan | Application/FileConverter/PathHelpers.cs:95 | The backward scan of Path.GetExtension stops at the extension's dot when there is one. It finds none when a separator or the final character stops it first |
| UniquePaths.GetExtension | Application/FileConverter/PathHelpers.cs:95 | The extension is a suffix of the path. It is non-empty exactly when a dot has at least one character after it and neither a dot nor a separator follows it, and then it starts at that dot |
| UniquePaths.Stem | Application/FileConverter/PathHelpers.cs:96 | basePath + extension is the path |
| UniquePaths.Candidate | Application/FileConverter/PathHelpers.cs:100 | A candidate `basePath (k)extension` is longer than basePath and extension together, so it is never the original path |
| UniquePaths.CandidatesDistinct | Application/FileConverter/PathHelpers.cs:100 | Different indices give different candidate names |
| UniquePaths.CandidateKeepsExtension | Application/FileConverter/PathHelpers.cs:100 | A candidate has the same extension as the original path, when that has one |
| UniquePaths.GenerateUniquePath | Application/FileConverter/PathHelpers.cs:93-105 | The result does not exist. It is the path itself when that does not exist. Otherwise it is basePath + ` (k)` + extension, for the least k >= 2 whose candidate does not exist. Base and extension come from the original path, so suffixes do not compound |
| UniquePaths.ProbeStep | Application/FileConverter/PathHelpers.cs:98-102 | Probing a name that exists keeps the loop invariant and leaves fewer existing names unprobed, so the loop ends |
| UniquePaths.NotProbedYet | Application/FileConverter/PathHelpers.cs:98-102 | The name probed for an index was never probed before |
| UniquePaths.ProbingDone | Application/FileConverter/PathHelpers.cs:98-104 | When the probe finds no existing path, the current name is the unique path |
| UniquePaths.UniquePathDeterministic | Application/FileConverter/PathHelpers.cs:93-105 | The path and the set of existing paths determine the result |
| UniquePaths.FirstFreeCandidate | Application/FileConverter/PathHelpers.cs:98-104 | The least free candidate after an existing path is the result |
| UniquePaths.ThirdNameExample | Application/FileConverter/PathHelpers.cs:93-105 | With `file.txt` and `file (2).txt` taken, the result is `file (3).txt` |
| Categories.CategoryNamesDistinct | Application/FileConverter/PathHelpers.cs:208-216 | The five category names Audio, Video, Image, Animated Image and Misc are distinct; `Animated Image` has a space |
| Categories.GetExtensionCategory | Application/FileConverter/PathHelpers.cs:107-157 | Total: every string gets one of the five category names |
| Categories.AudioCategory | Application/FileConverter/PathHelpers.cs:111-122 | Audio exactly for aac, aiff, ape, cda, flac, mp3, m4a, oga, ogg, wav, wma |
| Categories.VideoCategory | Application/FileConverter/PathHelpers.cs:124-137 | Video exactly for 3gp, avi, bik, flv, m4v, mp4, mpeg, mov, mkv, ogv, vob, webm, wmv |
| Categories.ImageCategory | Application/FileConverter/PathHelpers.cs:139-150 | Image exactly for bmp, exr, ico, jpg, jpeg, png, psd, tga, tiff, svg, xcf |
| Categories.AnimatedImageCategory | Application/FileConverter/PathHelpers.cs:152-153 | "Animated Image" exactly for gif |
| Categories.MiscCategory | Application/FileConverter/PathHelpers.cs:156 | Misc exactly for every string in none of the lists |
| Categories.ExtensionListsDisjoint | Application/FileConverter/PathHelpers.cs:109-154 | No extension is in two lists, so the order of the switch cases does not matter |
| Categories.LookupIsCaseSensitive | Application/FileConverter/PathHelpers.cs:107-157 | `mp3` is Audio but `MP3` and `.mp3` are Misc. `gif` gives `Animated Image`, with the space |
| Categories.IsOutputTypeCompatibleWithCategory | Application/FileConverter/PathHelpers.cs:159-193 | Always true for Misc. For any other category string, true exactly for the 24 (output type, category) pairs of the table: audio outputs with Audio and Video; video outputs with Video and Animated Image; Ico, Jpg and Png with Image; Gif with Image, Video and Animated Image |
| Categories.UnknownInputsIncompatible | Application/FileConverter/PathHelpers.cs:167-192 | An unknown category string is compatible with nothing. An unlisted output type is compatible only with Misc |
| Categories.ExtensionCompatibility | Application/FileConverter/PathHelpers.cs:107-193 | An unlisted extension passes for every output type. A listed one passes exactly when (output type, its category) is in the table |
| Categories.CompatibilityExamples | Application/FileConverter/PathHelpers.cs:159-193 | mkv can become Mp3; png cannot become Mp3; gif cannot become Png but can become Gif; the unknown extension `xyz123` can become every output type |

## Left out

- `GetUserDataFolderPath` is left out. It is an environment lookup plus directory creation, which is I/O.
- `File.Exists` is modelled as membership in a finite set given as a parameter. The race between the existence probe and a later file creation is concurrency and is not modelled.
- `Ripper.CDDrive.GetCDDriveLetters()` is a device enumeration. Its result is passed to `IsOnCDDrive` as a `seq<char>`.
- The general .NET regex engine is not modelled. Only the outcomes of the five fixed patterns are.
- Null strings are not modelled; every function here takes a string. In the source a null path reaches the regex or `Path.GetExtension`, which raise ArgumentNullException or return null.
- `Path.GetExtension`'s ArgumentException for characters that are invalid in a path is not modelled. Only its separator-and-dot rule is.
- `TrackNumbers.ParseInt32` covers only strings of ASCII digits, the only text the `([0-9]+)` group can capture. The leading or trailing white space, signs and culture settings that `int.Parse` also handles never reach it here.
- `PathGrammar.GetDirectories` returns the finite sequence of captures. The lazy, deferred evaluation of the `yield` enumerator is not modelled.
- UniquePaths.GenerateUniquePath: the index is an unbounded `nat`. The source's `int index` would wrap past int.MaxValue and then format negative numbers. That happens only after more than two billion existing candidates, and the model does not capture it.
- Characters are Dafny `char`s. The UTF-16 code units of .NET strings, including lone surrogates, are not modelled; the patterns compare only ASCII characters.

## Findings

| source | as written | input that shows it | evidently intended | confidence | as-written member | corrected member |
|---|---|---|---|---|---|---|
| Application/FileConverter/PathHelpers.cs:12 | `pathRegex` ends in `$` without RegexOptions.Multiline. In .NET `$` also matches just before a final line feed, so `IsPathValid` accepts a valid path followed by `\n` | `C:\a.txt` followed by a line feed | reject it: every component class of the pattern excludes `\n`, so the anchor is meant to be the end of the input (`\z`) | not executed | PathGrammar.TrailingNewlineAccepted | PathGrammar.IsPathValidExact |
