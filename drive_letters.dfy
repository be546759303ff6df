/** Drive letters in PathHelpers: `IsPathDriveLetterValid` and
    `GetPathDriveLetter` (the unanchored `driveLetterRegex`) and `IsOnCDDrive`. */
module DriveLetters {
  import opened Wrappers
  import opened Chars
  import PathGrammar

  /** `[a-zA-Z]:\` occurs at index i. */
  predicate DriveLetterAt(p: string, i: nat) {
    i + 3 <= |p| && IsAsciiLetter(p[i]) && p[i + 1] == ':' && p[i + 2] == '\\'
  }

  /** The leftmost occurrence of `[a-zA-Z]:\` at or after `from`: the regex
      engine tries each start position in turn. */
  function FindDriveLetter(p: string, from: nat): (r: Option<nat>)
    ensures r.Some? ==> from <= r.value && DriveLetterAt(p, r.value)
    ensures r.Some? ==> forall j :: from <= j < r.value ==> !DriveLetterAt(p, j)
    ensures r.None? ==> forall j :: from <= j ==> !DriveLetterAt(p, j)
    decreases |p| - from
  {
    if |p| < from + 3 then None
    else if DriveLetterAt(p, from) then Some(from)
    else FindDriveLetter(p, from + 1)
  }

  /** IsPathDriveLetterValid: `driveLetterRegex.IsMatch(path)`. */
  function IsPathDriveLetterValid(p: string): (valid: bool)
    ensures valid <==> exists i: nat :: DriveLetterAt(p, i)
  {
    FindDriveLetter(p, 0).Some?
  }

  /** GetPathDriveLetter: the text of the first match, or "" when there is none. */
  function GetPathDriveLetter(p: string): (letter: string)
    ensures letter == "" <==> forall i: nat :: !DriveLetterAt(p, i)
    ensures letter != "" ==>
      exists i: nat :: DriveLetterAt(p, i) && letter == p[i..i + 3]
        && forall j :: 0 <= j < i ==> !DriveLetterAt(p, j)
  {
    match FindDriveLetter(p, 0)
    case None => ""
    case Some(i) => p[i..i + 3]
  }

  /** A match is always three characters: a letter, `:` and `\`. */
  lemma DriveLetterShape(p: string)
    ensures GetPathDriveLetter(p) == "" || PathGrammar.IsLetterRoot(GetPathDriveLetter(p))
  {
  }

  /** The two public queries agree: a drive letter is valid exactly when one is found. */
  lemma ValidIffLetterFound(p: string)
    ensures IsPathDriveLetterValid(p) <==> GetPathDriveLetter(p) != ""
  {
  }

  /** The first match starts where the first occurrence does, so text appended
      after a path that already holds a drive letter does not change it. */
  lemma {:induction false} DriveLetterStableUnderAppend(p: string, q: string)
    requires GetPathDriveLetter(p) != ""
    ensures GetPathDriveLetter(p + q) == GetPathDriveLetter(p)
  {
    var i := FindDriveLetter(p, 0).value;
    forall j | 0 <= j <= i ensures DriveLetterAt(p + q, j) <==> DriveLetterAt(p, j) {
      if j + 3 <= |p| {
        assert (p + q)[j] == p[j] && (p + q)[j + 1] == p[j + 1] && (p + q)[j + 2] == p[j + 2];
      }
    }
    FindDriveLetterIs(p + q, i);
    assert (p + q)[i..i + 3] == p[i..i + 3];
  }

  lemma FindDriveLetterIs(p: string, i: nat)
    requires DriveLetterAt(p, i) && forall j :: 0 <= j < i ==> !DriveLetterAt(p, j)
    ensures FindDriveLetter(p, 0) == Some(i)
  {
  }

  /** A path that `IsPathValid` accepts holds a drive letter exactly when it has a
      letter root, and then the drive letter is that root: path characters exclude
      `:`, so no later `X:\` can occur. */
  lemma ValidPathDriveLetter(p: string)
    requires PathGrammar.MatchesPathPattern(p)
    ensures GetPathDriveLetter(p) == (if p[0] == '\\' then "" else p[..3])
  {
    var n := PathGrammar.RootLength(p).value;
    NoColonInTail(p[n..]);
    forall i | n <= i < |p| ensures p[i] != ':' {
      assert p[i] == p[n..][i - n];
    }
    if p[0] == '\\' {
      assert PathGrammar.IsUncRoot(p[..n]);
      forall i | 0 <= i < n ensures p[i] != ':' {
        assert p[i] == p[..n][i];
      }
      forall i: nat ensures !DriveLetterAt(p, i) {
        if i + 1 < |p| {
          assert p[i + 1] != ':';
        }
      }
    } else {
      assert PathGrammar.IsLetterRoot(p[..n]);
      assert DriveLetterAt(p, 0);
      FindDriveLetterIs(p, 0);
    }
  }

  /** The path remainder after the root holds no `:`. */
  lemma {:induction false} NoColonInTail(t: string)
    requires PathGrammar.MatchesTail(t)
    ensures forall i :: 0 <= i < |t| ==> t[i] != ':'
    decreases |t|
  {
    var k := PathGrammar.PathCharRun(t);
    if k < |t| {
      var rest := t[k + 1..];
      NoColonInTail(rest);
      forall i | k < i < |t| ensures t[i] != ':' {
        assert t[i] == rest[i - k - 1];
      }
    }
  }

  /** IsOnCDDrive. The drive letters of the machine's optical drives are a
      parameter here; the source asks the operating system for them. The loop
      compares the path's drive letter exactly (case-sensitively) with each. */
  method IsOnCDDrive(p: string, cdDriveLetters: seq<char>) returns (onCd: bool)
    ensures GetPathDriveLetter(p) == "" ==> !onCd
    ensures GetPathDriveLetter(p) != "" ==> (onCd <==> GetPathDriveLetter(p)[0] in cdDriveLetters)
  {
    var pathDriveLetter := GetPathDriveLetter(p);
    if pathDriveLetter == "" {
      return false;
    }
    var driveLetter := pathDriveLetter[0];
    for index := 0 to |cdDriveLetters|
      invariant forall j :: 0 <= j < index ==> cdDriveLetters[j] != driveLetter
    {
      if cdDriveLetters[index] == driveLetter {
        return true;
      }
    }
    return false;
  }
}
