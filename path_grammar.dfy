/** The path grammar of PathHelpers: `IsPathValid` (the anchored `pathRegex`),
    `GetFileName` (the right-to-left `filenameRegex`) and `GetDrive` /
    `GetDirectories` (the anchored `directoryRegex` with its `drive` and
    `folders` groups), each pattern written out as a scanner over the string. */
module PathGrammar {
  import opened Wrappers
  import opened Chars

  // ---------------------------------------------------------------------------
  // The grammar, stated declaratively
  // ---------------------------------------------------------------------------

  /** `[a-zA-Z]:\` */
  predicate IsLetterRoot(d: string) {
    |d| == 3 && IsAsciiLetter(d[0]) && d[1] == ':' && d[2] == '\\'
  }

  /** `\\` + a non-empty server name of path characters + `\` */
  predicate IsUncRoot(d: string) {
    |d| >= 4 && d[0] == '\\' && d[1] == '\\' && d[|d| - 1] == '\\'
    && forall i :: 2 <= i < |d| - 1 ==> IsPathChar(d[i])
  }

  predicate IsRoot(d: string) {
    IsUncRoot(d) || IsLetterRoot(d)
  }

  /** A directory segment: non-empty, path characters only (so `.` and `..` are segments). */
  predicate IsSegment(s: string) {
    |s| > 0 && AllPathChars(s)
  }

  /** The final component: a segment whose first character is not `.`. */
  predicate IsFileName(s: string) {
    IsSegment(s) && s[0] != '.'
  }

  predicate AllSegments(segs: seq<string>) {
    forall i :: 0 <= i < |segs| ==> IsSegment(segs[i])
  }

  /** Every directory followed by its backslash, outermost first. */
  function JoinDirs(dirs: seq<string>): string {
    if dirs == [] then "" else dirs[0] + "\\" + JoinDirs(dirs[1..])
  }

  predicate WellFormed(root: string, segs: seq<string>, name: string) {
    IsRoot(root) && AllSegments(segs) && IsFileName(name)
  }

  /** root + (segment + `\`)* + filename */
  ghost predicate InGrammar(s: string) {
    exists root, segs, name :: WellFormed(root, segs, name) && s == root + JoinDirs(segs) + name
  }

  // ---------------------------------------------------------------------------
  // Scanners
  // ---------------------------------------------------------------------------

  /** Length of the leading run of path characters. */
  function PathCharRun(s: string): (n: nat)
    ensures n <= |s|
    ensures forall i :: 0 <= i < n ==> IsPathChar(s[i])
    ensures n < |s| ==> !IsPathChar(s[n])
  {
    if s == [] || !IsPathChar(s[0]) then 0 else 1 + PathCharRun(s[1..])
  }

  /** Length of the leading run of characters other than `\`. */
  function NonBackslashRun(s: string): (n: nat)
    ensures n <= |s|
    ensures forall i :: 0 <= i < n ==> s[i] != '\\'
    ensures n < |s| ==> s[n] == '\\'
  {
    if s == [] || s[0] == '\\' then 0 else 1 + NonBackslashRun(s[1..])
  }

  lemma PathCharRunIs(s: string, k: nat)
    requires k <= |s| && (forall i :: 0 <= i < k ==> IsPathChar(s[i]))
    requires k < |s| ==> !IsPathChar(s[k])
    ensures PathCharRun(s) == k
  {
  }

  lemma NonBackslashRunIs(s: string, k: nat)
    requires k <= |s| && (forall i :: 0 <= i < k ==> s[i] != '\\')
    requires k < |s| ==> s[k] == '\\'
    ensures NonBackslashRun(s) == k
  {
  }

  /** The root alternation `\\[^…]+\\|[a-zA-Z]:\\` at the start of s: the length
      of the root that starts s, if there is one. */
  function RootLength(s: string): (r: Option<nat>)
    ensures r.Some? ==> r.value <= |s| && IsRoot(s[..r.value])
  {
    if 2 <= |s| && s[0] == '\\' && s[1] == '\\' then
      var k := PathCharRun(s[2..]);
      if 0 < k && 2 + k < |s| && s[2 + k] == '\\' then
        UncRootLength(s, k, 3 + k);
        Some(3 + k)
      else None
    else if 3 <= |s| && IsAsciiLetter(s[0]) && s[1] == ':' && s[2] == '\\' then Some(3)
    else None
  }

  lemma UncRootLength(s: string, k: nat, n: nat)
    requires 2 <= |s| && s[0] == '\\' && s[1] == '\\' && k == PathCharRun(s[2..]) && n <= |s|
    ensures IsRoot(s[..n]) <==> 0 < k && 2 + k < |s| && s[2 + k] == '\\' && n == 3 + k
  {
    var d := s[..n];
    if IsRoot(d) {
      assert IsUncRoot(d);
      forall i | 0 <= i < n - 3 ensures IsPathChar(s[2..][i]) {
        assert s[2..][i] == d[i + 2];
      }
      assert s[2..][n - 3] == d[n - 1];
      PathCharRunIs(s[2..], n - 3);
    }
    if 0 < k && 2 + k < |s| && s[2 + k] == '\\' && n == 3 + k {
      forall i | 2 <= i < n - 1 ensures IsPathChar(d[i]) {
        assert d[i] == s[2..][i - 2];
      }
    }
  }

  /** At most one prefix of s is a root, and RootLength finds it. */
  lemma RootLengthExact(s: string, n: nat)
    requires n <= |s|
    ensures IsRoot(s[..n]) <==> RootLength(s) == Some(n)
  {
    if 2 <= |s| && s[0] == '\\' && s[1] == '\\' {
      UncRootLength(s, PathCharRun(s[2..]), n);
    }
  }

  /** `(?:[^…]+\\)*[^\.…][^…]*` matched against the whole remainder after the root. */
  predicate MatchesTail(t: string)
    decreases |t|
  {
    var k := PathCharRun(t);
    if k == |t| then k > 0 && t[0] != '.'
    else k > 0 && t[k] == '\\' && MatchesTail(t[k + 1..])
  }

  /** The whole of `pathRegex` up to (not including) its final `$`. */
  predicate MatchesPathPattern(s: string) {
    match RootLength(s)
    case None => false
    case Some(n) => MatchesTail(s[n..])
  }

  /** IsPathValid: `pathRegex.IsMatch(path)`. Without RegexOptions.Multiline the
      pattern's `$` matches at the end of the input or just before a final `\n`,
      so it accepts exactly the paths of the grammar and those paths followed by
      one `\n`. */
  function IsPathValid(p: string): (valid: bool)
    ensures valid <==> InGrammar(p) || (|p| > 0 && p[|p| - 1] == '\n' && InGrammar(p[..|p| - 1]))
  {
    PatternIffGrammar(p);
    if |p| > 0 && p[|p| - 1] == '\n' then
      PatternIffGrammar(p[..|p| - 1]);
      MatchesPathPattern(p) || MatchesPathPattern(p[..|p| - 1])
    else MatchesPathPattern(p)
  }

  /** The path grammar anchored at both ends, without the trailing-newline allowance. */
  function IsPathValidExact(p: string): (valid: bool)
    ensures valid <==> InGrammar(p)
  {
    PatternIffGrammar(p);
    MatchesPathPattern(p)
  }

  // ---------------------------------------------------------------------------
  // GetFileName, GetDrive, GetDirectories
  // ---------------------------------------------------------------------------

  /** Where the filename starts: just after the last `\` before index i, given
      that no `\` occurs from i on. */
  function FileNameStartBefore(p: string, i: nat): (start: nat)
    requires i <= |p|
    ensures start <= i
    ensures start > 0 ==> p[start - 1] == '\\'
    ensures forall j :: start <= j < i ==> p[j] != '\\'
    decreases i
  {
    if i == 0 || p[i - 1] == '\\' then i else FileNameStartBefore(p, i - 1)
  }

  /** GetFileName: the first right-to-left match of `[^\\]*`. The match collection
      is never empty (an empty match at the end always exists), so the result is
      never null. It is the longest suffix of the path without `\`: either the
      whole path or the text after its last `\` (`/` does not separate). */
  function GetFileName(p: string): (name: string)
    ensures |name| <= |p| && name == p[|p| - |name|..]
    ensures NoBackslash(name)
    ensures |name| < |p| ==> p[|p| - |name| - 1] == '\\'
  {
    p[FileNameStartBefore(p, |p|)..]
  }

  /** The start index of the filename is the one position that follows either
      the start of the path or a `\\`, with no `\\` after it. */
  lemma FileNameStartIs(p: string, i: nat)
    requires i <= |p| && (i > 0 ==> p[i - 1] == '\\')
    requires forall j :: i <= j < |p| ==> p[j] != '\\'
    ensures FileNameStartBefore(p, |p|) == i
  {
  }

  /** The three properties of GetFileName's contract single out its result. */
  lemma FileNameUnique(p: string, r: string)
    requires |r| <= |p| && r == p[|p| - |r|..] && NoBackslash(r)
    requires |r| < |p| ==> p[|p| - |r| - 1] == '\\'
    ensures r == GetFileName(p)
  {
    var i := |p| - |r|;
    forall j | i <= j < |p| ensures p[j] != '\\' {
      assert p[j] == r[j - i];
    }
    FileNameStartIs(p, i);
  }

  lemma FileNameAfterBackslash(a: string, t: string)
    requires |a| > 0 && a[|a| - 1] == '\\'
    ensures FileNameStartBefore(a + t, |a + t|) == |a| + FileNameStartBefore(t, |t|)
    ensures GetFileName(a + t) == GetFileName(t)
  {
    var st := FileNameStartBefore(t, |t|);
    var p := a + t;
    forall j | |a| + st <= j < |p| ensures p[j] != '\\' {
      assert p[j] == t[j - |a|];
    }
    assert p[|a| + st - 1] == '\\' by {
      if st > 0 {
        assert p[|a| + st - 1] == t[st - 1];
      }
    }
    FileNameStartIs(p, |a| + st);
    assert p[|a| + st..] == t[st..];
  }

  /** The captures of the group `folders` in `(?:(?<folders>[^\\]*)\\)*`, applied
      greedily to the remainder after the drive: every backslash-terminated run. */
  function BackslashRuns(t: string): (r: seq<string>)
    ensures forall i :: 0 <= i < |r| ==> NoBackslash(r[i])
    decreases |t|
  {
    var k := NonBackslashRun(t);
    if k == |t| then [] else [t[..k]] + BackslashRuns(t[k + 1..])
  }

  /** What a successful match of `directoryRegex` captures. */
  datatype DirectoryMatch = DirectoryMatch(drive: string, folders: seq<string>)

  /** `directoryRegex.Matches(path)`: the pattern is anchored by `^`, so there is
      at most one match, and it exists exactly when a prefix of the path is a root. */
  function MatchDirectoryPattern(p: string): (m: Option<DirectoryMatch>)
    ensures m.Some? ==> |m.value.drive| <= |p| && m.value.drive == p[..|m.value.drive|]
    ensures m.Some? ==> IsRoot(m.value.drive)
    ensures m.Some? ==> forall i :: 0 <= i < |m.value.folders| ==> NoBackslash(m.value.folders[i])
  {
    match RootLength(p)
    case None => None
    case Some(n) => Some(DirectoryMatch(p[..n], BackslashRuns(p[n..])))
  }

  /** GetDrive: the capture of the group `drive`, or null (None) when nothing matches. */
  function GetDrive(p: string): (r: Option<string>)
    ensures r.Some? ==> |r.value| <= |p| && r.value == p[..|r.value|] && IsRoot(r.value)
  {
    match MatchDirectoryPattern(p)
    case None => None
    case Some(m) => Some(m.drive)
  }

  /** GetDrive returns the prefix of the path that is a root, and None when no prefix is one. */
  lemma DriveIsRootPrefix(p: string, n: nat)
    requires n <= |p|
    ensures IsRoot(p[..n]) <==> GetDrive(p) == Some(p[..n])
  {
    RootLengthExact(p, n);
  }

  /** The folder captures that GetDirectories enumerates; none without a match. */
  function DirectoryCaptures(p: string): (dirs: seq<string>)
    ensures GetDrive(p).None? ==> dirs == []
    ensures forall i :: 0 <= i < |dirs| ==> NoBackslash(dirs[i])
  {
    match MatchDirectoryPattern(p)
    case None => []
    case Some(m) => m.folders
  }

  /** GetDirectories: yields the captures of `folders` one by one, by index. */
  method GetDirectories(p: string) returns (dirs: seq<string>)
    ensures GetDrive(p).None? ==> dirs == []
    ensures GetDrive(p).Some? ==> GetDrive(p).value + JoinDirs(dirs) + GetFileName(p) == p
    ensures forall i :: 0 <= i < |dirs| ==> NoBackslash(dirs[i])
    ensures dirs == DirectoryCaptures(p)
  {
    var m := MatchDirectoryPattern(p);
    if m.None? {
      return [];
    }
    var captures := m.value.folders;
    dirs := [];
    for index := 0 to |captures|
      invariant dirs == captures[..index]
    {
      dirs := dirs + [captures[index]];
    }
    assert dirs == captures;
    SplitJoinsBack(p);
  }

  // ---------------------------------------------------------------------------
  // Properties
  // ---------------------------------------------------------------------------

  lemma {:induction false} BackslashRunsJoin(t: string)
    ensures JoinDirs(BackslashRuns(t)) + GetFileName(t) == t
    decreases |t|
  {
    var k := NonBackslashRun(t);
    if k == |t| {
      WholeFileName(t);
    } else {
      var pre, rest := t[..k], t[k + 1..];
      var head := pre + "\\";
      SplitAt(t, k);
      var runs := BackslashRuns(rest);
      BackslashRunsJoin(rest);
      assert BackslashRuns(t) == [pre] + runs;
      assert ([pre] + runs)[1..] == runs;
      FileNameAfterBackslash(head, rest);
      Associative(head, JoinDirs(runs), GetFileName(rest));
    }
  }

  lemma SplitAt(t: string, k: nat)
    requires k < |t| && t[k] == '\\'
    ensures t == t[..k] + "\\" + t[k + 1..]
  {
  }

  lemma Associative(a: string, b: string, c: string)
    ensures a + b + c == a + (b + c)
  {
  }

  /** Whenever GetDrive finds a root, drive + directories + filename is the path. */
  lemma SplitJoinsBack(p: string)
    requires GetDrive(p).Some?
    ensures GetDrive(p).value + JoinDirs(DirectoryCaptures(p)) + GetFileName(p) == p
  {
    var n := RootLength(p).value;
    var drive, rest := p[..n], p[n..];
    assert GetDrive(p).value == drive && DirectoryCaptures(p) == BackslashRuns(rest);
    assert IsRoot(drive);
    PrefixSuffix(p, n);
    BackslashRunsJoin(rest);
    FileNameAfterBackslash(drive, rest);
    Associative(drive, JoinDirs(BackslashRuns(rest)), GetFileName(rest));
  }

  lemma PrefixSuffix(s: string, n: nat)
    requires n <= |s|
    ensures s[..n] + s[n..] == s
  {
  }

  lemma {:induction false} TailSegments(t: string)
    requires MatchesTail(t)
    ensures AllSegments(BackslashRuns(t))
    decreases |t|
  {
    var k := PathCharRun(t);
    NonBackslashRunIs(t, k);
    if k < |t| {
      var pre, rest := t[..k], t[k + 1..];
      TailSegments(rest);
      var runs := BackslashRuns(rest);
      assert BackslashRuns(t) == [pre] + runs;
      assert IsSegment(pre) by {
        forall i | 0 <= i < |pre| ensures IsPathChar(pre[i]) {
          assert pre[i] == t[i];
        }
      }
      forall i | 0 <= i < |[pre] + runs| ensures IsSegment(([pre] + runs)[i]) {
        if i > 0 {
          assert ([pre] + runs)[i] == runs[i - 1];
        }
      }
    }
  }

  lemma {:induction false} TailFileName(t: string)
    requires MatchesTail(t)
    ensures IsFileName(GetFileName(t))
    decreases |t|
  {
    var k := PathCharRun(t);
    if k == |t| {
      WholeFileName(t);
      assert IsFileName(t);
    } else {
      var rest := t[k + 1..];
      SplitAt(t, k);
      TailFileName(rest);
      FileNameAfterBackslash(t[..k] + "\\", rest);
    }
  }

  /** Every path that the pattern accepts splits into a root, segments and a filename. */
  lemma ValidPathDecomposes(p: string)
    requires MatchesPathPattern(p)
    ensures GetDrive(p).Some?
    ensures WellFormed(GetDrive(p).value, DirectoryCaptures(p), GetFileName(p))
  {
    var n := RootLength(p).value;
    ValidPathFolders(p, n);
    ValidPathFileName(p, n);
  }

  lemma ValidPathFolders(p: string, n: nat)
    requires RootLength(p) == Some(n) && MatchesTail(p[n..])
    ensures AllSegments(DirectoryCaptures(p))
  {
    TailSegments(p[n..]);
  }

  lemma ValidPathFileName(p: string, n: nat)
    requires n <= |p| && IsRoot(p[..n]) && MatchesTail(p[n..])
    ensures IsFileName(GetFileName(p))
  {
    var drive, rest := p[..n], p[n..];
    RootEndsWithBackslash(drive);
    TailFileName(rest);
    PrefixSuffix(p, n);
    FileNameAfterBackslash(drive, rest);
  }

  lemma RootEndsWithBackslash(d: string)
    requires IsRoot(d)
    ensures |d| > 0 && d[|d| - 1] == '\\'
  {
  }

  lemma {:induction false} TailOfComposed(segs: seq<string>, name: string)
    requires AllSegments(segs) && IsFileName(name)
    ensures MatchesTail(JoinDirs(segs) + name)
    ensures BackslashRuns(JoinDirs(segs) + name) == segs
    decreases |segs|
  {
    if segs == [] {
      assert JoinDirs(segs) + name == name;
      PathCharRunIs(name, |name|);
      NonBackslashRunIs(name, |name|);
    } else {
      var head, others := segs[0], segs[1..];
      var rest := JoinDirs(others) + name;
      JoinDirsCons(segs, name);
      TailOfComposed(others, name);
      TailStep(head, rest);
    }
  }

  lemma JoinDirsCons(segs: seq<string>, name: string)
    requires segs != [] && AllSegments(segs)
    ensures JoinDirs(segs) + name == segs[0] + "\\" + (JoinDirs(segs[1..]) + name)
    ensures segs == [segs[0]] + segs[1..]
    ensures IsSegment(segs[0]) && AllSegments(segs[1..])
  {
    Associative(segs[0] + "\\", JoinDirs(segs[1..]), name);
  }

  /** One segment and its `\` in front of a remainder the pattern accepts. */
  lemma TailStep(pre: string, rest: string)
    requires IsSegment(pre)
    ensures MatchesTail(rest) ==> MatchesTail(pre + "\\" + rest)
    ensures BackslashRuns(pre + "\\" + rest) == [pre] + BackslashRuns(rest)
  {
    var t := pre + "\\" + rest;
    JoinedParts(pre, rest);
    PathCharRunIs(t, |pre|);
    NonBackslashRunIs(t, |pre|);
  }

  lemma JoinedParts(pre: string, rest: string)
    ensures (pre + "\\" + rest)[..|pre|] == pre
    ensures (pre + "\\" + rest)[|pre|] == '\\'
    ensures (pre + "\\" + rest)[|pre| + 1..] == rest
    ensures forall i :: 0 <= i < |pre| ==> (pre + "\\" + rest)[i] == pre[i]
  {
  }

  lemma JoinDirsEndsWithBackslash(dirs: seq<string>)
    requires dirs != []
    ensures |JoinDirs(dirs)| > 0 && JoinDirs(dirs)[|JoinDirs(dirs)| - 1] == '\\'
    decreases |dirs|
  {
    if dirs[1..] != [] {
      JoinDirsEndsWithBackslash(dirs[1..]);
    }
  }

  /** Composing well-formed parts gives a valid path that splits back into those parts. */
  lemma ComposedPathDecomposes(root: string, segs: seq<string>, name: string)
    requires WellFormed(root, segs, name)
    ensures MatchesPathPattern(root + JoinDirs(segs) + name)
    ensures GetDrive(root + JoinDirs(segs) + name) == Some(root)
    ensures DirectoryCaptures(root + JoinDirs(segs) + name) == segs
    ensures GetFileName(root + JoinDirs(segs) + name) == name
  {
    var p := root + JoinDirs(segs) + name;
    var tail := JoinDirs(segs) + name;
    Associative(root, JoinDirs(segs), name);
    assert p[..|root|] == root && p[|root|..] == tail;
    RootLengthExact(p, |root|);
    TailOfComposed(segs, name);
    FileNameAfterBackslash(root, tail);
    FileNameOfTail(segs, name);
  }

  lemma FileNameOfTail(segs: seq<string>, name: string)
    requires IsFileName(name)
    ensures GetFileName(JoinDirs(segs) + name) == name
  {
    WholeFileName(name);
    if segs == [] {
      assert JoinDirs(segs) + name == name;
    } else {
      FileNameAfterDirs(segs, name);
    }
  }

  lemma FileNameAfterDirs(segs: seq<string>, name: string)
    requires segs != []
    ensures GetFileName(JoinDirs(segs) + name) == GetFileName(name)
  {
    var dirs := JoinDirs(segs);
    JoinDirsEndsWithBackslash(segs);
    FileNameAfterBackslash(dirs, name);
  }

  lemma WholeFileName(s: string)
    requires NoBackslash(s)
    ensures FileNameStartBefore(s, |s|) == 0 && GetFileName(s) == s
  {
    FileNameStartIs(s, 0);
  }

  lemma PatternIffGrammar(s: string)
    ensures MatchesPathPattern(s) <==> InGrammar(s)
  {
    if MatchesPathPattern(s) {
      ValidPathDecomposes(s);
      SplitJoinsBack(s);
      var root, segs, name := GetDrive(s).value, DirectoryCaptures(s), GetFileName(s);
      assert WellFormed(root, segs, name) && s == root + JoinDirs(segs) + name;
    }
    if InGrammar(s) {
      var root, segs, name :| WellFormed(root, segs, name) && s == root + JoinDirs(segs) + name;
      ComposedPathDecomposes(root, segs, name);
    }
  }

  /** A path the pattern accepts has a filename not starting with `.`, and ends in a path character. */
  lemma AcceptedPathShape(s: string)
    ensures MatchesPathPattern(s) ==>
      |GetFileName(s)| > 0 && GetFileName(s)[0] != '.' && IsPathChar(s[|s| - 1])
  {
    if MatchesPathPattern(s) {
      ValidPathDecomposes(s);
      var f := GetFileName(s);
      assert s[|s| - 1] == f[|f| - 1];
    }
  }

  /** As written, IsPathValid accepts a path that ends in a line feed, a reserved character. */
  lemma TrailingNewlineAccepted()
    ensures IsPathValid("C:\\a.txt\n")
    ensures !InGrammar("C:\\a.txt\n")
    ensures !IsPathValidExact("C:\\a.txt\n")
  {
    var p := "C:\\a.txt\n";
    assert p[..|p| - 1] == "C:\\" + JoinDirs([]) + "a.txt";
    assert WellFormed("C:\\", [], "a.txt");
    ComposedPathDecomposes("C:\\", [], "a.txt");
    AcceptedPathShape(p);
    assert !IsPathChar(p[|p| - 1]);
    PatternIffGrammar(p);
  }

  /** Directory segments may be `..` or `.`. */
  lemma DotSegmentsAccepted()
    ensures IsPathValid("C:\\..\\.\\a.txt")
  {
    assert "C:\\..\\.\\a.txt" == "C:\\" + JoinDirs(["..", "."]) + "a.txt";
    assert WellFormed("C:\\", ["..", "."], "a.txt");
    ComposedPathDecomposes("C:\\", ["..", "."], "a.txt");
  }

  /** A path whose filename starts with `.` is refused, with or without one final
      line feed: dropping the line feed leaves a filename that still starts with `.`. */
  lemma DotFileNameRejected(dirs: string, name: string)
    requires |dirs| > 0 && dirs[|dirs| - 1] == '\\'
    requires NoBackslash(name) && |name| > 0 && name[0] == '.'
    ensures !IsPathValid(dirs + name)
  {
    var s := dirs + name;
    DotFileNameUnmatched(dirs, name);
    if name[|name| - 1] == '\n' && |name| > 1 {
      var front := name[..|name| - 1];
      assert s[..|s| - 1] == dirs + front;
      DotFileNameUnmatched(dirs, front);
    }
  }

  lemma DotFileNameUnmatched(dirs: string, name: string)
    requires |dirs| > 0 && dirs[|dirs| - 1] == '\\'
    requires NoBackslash(name) && |name| > 0 && name[0] == '.'
    ensures !MatchesPathPattern(dirs + name)
  {
    FileNameAfterBackslash(dirs, name);
    WholeFileName(name);
    AcceptedPathShape(dirs + name);
  }

  /** Only the filename is barred from starting with `.`. */
  lemma HiddenFileNameRejected()
    ensures !IsPathValid("C:\\dir\\.hidden")
  {
    assert "C:\\dir\\.hidden" == "C:\\dir\\" + ".hidden";
    DotFileNameRejected("C:\\dir\\", ".hidden");
  }
}
