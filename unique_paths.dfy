/** `GenerateUniquePath`: probe `base (2)ext`, `base (3)ext`, … until a name is
    free. `Path.GetExtension` is modelled by its scanning rule and
    `File.Exists` by membership in a finite set of existing paths. */
module UniquePaths {
  import opened Wrappers
  import opened Decimal

  /** DirectorySeparatorChar, AltDirectorySeparatorChar and VolumeSeparatorChar:
      the characters that end the backward search for an extension. */
  predicate IsExtensionStop(c: char) {
    c == '\\' || c == '/' || c == ':'
  }

  /** The extension of p starts with the `.` at index k: a `.` that is not the
      last character, with neither a `.` nor a separator after it. */
  predicate ExtensionDotAt(p: string, k: nat) {
    k + 1 < |p| && p[k] == '.'
    && forall i :: k < i < |p| ==> p[i] != '.' && !IsExtensionStop(p[i])
  }

  /** Path.GetExtension's loop: walk back from index i over characters that are
      neither `.` nor separators. */
  function ExtensionScan(p: string, i: nat): (r: Option<nat>)
    requires i <= |p|
    requires forall j :: i <= j < |p| ==> p[j] != '.' && !IsExtensionStop(p[j])
    ensures r.Some? ==> r.value < i && ExtensionDotAt(p, r.value)
    ensures r.None? ==> forall k: nat :: !ExtensionDotAt(p, k)
    decreases i
  {
    if i == 0 then None
    else if p[i - 1] == '.' then (if i == |p| then None else Some(i - 1))
    else if IsExtensionStop(p[i - 1]) then None
    else ExtensionScan(p, i - 1)
  }

  /** Path.GetExtension: the extension with its dot, or "" when there is none. */
  function GetExtension(p: string): (ext: string)
    ensures |ext| <= |p| && ext == p[|p| - |ext|..]
    ensures ext != "" <==> exists k: nat :: ExtensionDotAt(p, k)
    ensures ext != "" ==> ExtensionDotAt(p, |p| - |ext|)
  {
    match ExtensionScan(p, |p|)
    case None => ""
    case Some(k) => p[k..]
  }

  /** `basePath`: the path without its extension; the two put together give the
      path back. */
  function Stem(p: string): (base: string)
    ensures base + GetExtension(p) == p
  {
    p[..|p| - |GetExtension(p)|]
  }

  /** `string.Format("{0} ({1}){2}", basePath, index, baseExtension)`: every
      candidate is longer than the base and the extension together. */
  function Candidate(base: string, ext: string, k: nat): (c: string)
    ensures |c| > |base| + |ext|
  {
    (base + " (") + FormatNat(k) + (")" + ext)
  }

  /** Distinct indices give distinct candidates, since decimal text is injective. */
  lemma CandidatesDistinct(base: string, ext: string, j: nat, k: nat)
    requires j != k
    ensures Candidate(base, ext, j) != Candidate(base, ext, k)
  {
    ParseFormatRoundTrip(j);
    ParseFormatRoundTrip(k);
    var fj, fk := FormatNat(j), FormatNat(k);
    MiddleOf(base + " (", fj, ")" + ext);
    MiddleOf(base + " (", fk, ")" + ext);
  }

  lemma MiddleOf(a: string, m: string, b: string)
    ensures (a + m + b)[|a|..|a| + |m|] == m
    ensures a + m + b == (a + m) + b
  {
  }

  /** A dot followed by at least one character, none of them a dot or a
      separator, is the extension of any path it ends. */
  lemma ExtensionOfSuffix(front: string, e: string)
    requires |e| >= 2 && e[0] == '.'
    requires forall i :: 1 <= i < |e| ==> e[i] != '.' && !IsExtensionStop(e[i])
    ensures GetExtension(front + e) == e
  {
    var c := front + e;
    var at := |front|;
    forall i | at < i < |c| ensures c[i] != '.' && !IsExtensionStop(c[i]) {
      assert c[i] == e[i - at];
    }
    assert ExtensionDotAt(c, at);
    var g := GetExtension(c);
    assert |g| == |e|;
    assert c[at..] == e;
  }

  /** A candidate keeps the extension of the path it derives from, when there is one. */
  lemma CandidateKeepsExtension(p: string, k: nat)
    requires GetExtension(p) != ""
    ensures GetExtension(Candidate(Stem(p), GetExtension(p), k)) == GetExtension(p)
  {
    var ext := GetExtension(p);
    ExtensionShape(p);
    CandidateEndsWith(Stem(p), ext, k);
    ExtensionOfSuffix(Stem(p) + " (" + FormatNat(k) + ")", ext);
  }

  /** A non-empty extension is a dot followed by characters that are neither dots
      nor separators. */
  lemma ExtensionShape(p: string)
    requires GetExtension(p) != ""
    ensures var ext := GetExtension(p);
      |ext| >= 2 && ext[0] == '.'
      && forall i :: 1 <= i < |ext| ==> ext[i] != '.' && !IsExtensionStop(ext[i])
  {
    var ext := GetExtension(p);
    forall i | 1 <= i < |ext| ensures ext[i] != '.' && !IsExtensionStop(ext[i]) {
      assert ext[i] == p[|p| - |ext| + i];
    }
  }

  lemma CandidateEndsWith(base: string, ext: string, k: nat)
    ensures Candidate(base, ext, k) == (base + " (" + FormatNat(k) + ")") + ext
  {
  }

  /** What GenerateUniquePath returns: a path that does not exist; the path itself
      when it does not exist; otherwise `base (k)ext` for the least k >= 2 whose
      candidate does not exist, base and ext being taken from the original path. */
  ghost predicate IsUniquePath(p: string, existing: set<string>, r: string) {
    r !in existing
    && (p !in existing ==> r == p)
    && (p in existing ==>
          exists k: nat :: 2 <= k && r == Candidate(Stem(p), GetExtension(p), k)
            && forall j: nat :: 2 <= j < k ==> Candidate(Stem(p), GetExtension(p), j) in existing)
  }

  /** GenerateUniquePath. The loop ends because existing is finite and no
      candidate is probed twice. */
  method GenerateUniquePath(p: string, existing: set<string>) returns (r: string)
    ensures IsUniquePath(p, existing, r)
  {
    var baseExtension := GetExtension(p);
    var basePath := p[..|p| - |baseExtension|];
    var index: nat := 2;
    r := p;
    ghost var probed: set<string> := {};
    while r in existing
      invariant Probing(p, basePath, baseExtension, existing, probed, index, r)
      decreases |existing - probed|
    {
      ProbeStep(p, basePath, baseExtension, existing, probed, index, r);
      probed := probed + {r};
      r := Candidate(basePath, baseExtension, index);
      index := index + 1;
    }
    ProbingDone(p, basePath, baseExtension, existing, probed, index, r);
  }

  /** The paths probed before the probe for `index`: p itself, then the
      candidates 2 .. index - 2. */
  ghost function Probes(p: string, base: string, ext: string, index: nat): set<string>
    decreases index
  {
    if index <= 2 then {}
    else if index == 3 then {p}
    else Probes(p, base, ext, index - 1) + {Candidate(base, ext, index - 2)}
  }

  /** The loop invariant of GenerateUniquePath: r is the path about to be probed
      (p itself first, then the candidate for index - 1) and every earlier probe
      found an existing path. */
  ghost predicate Probing(p: string, base: string, ext: string, existing: set<string>,
                          probed: set<string>, index: nat, r: string)
  {
    |p| == |base| + |ext| && 2 <= index
    && r == (if index == 2 then p else Candidate(base, ext, index - 1))
    && probed == Probes(p, base, ext, index) && probed <= existing
  }

  /** One probe that finds an existing path keeps the invariant and leaves fewer
      existing paths unprobed. */
  lemma ProbeStep(p: string, base: string, ext: string, existing: set<string>,
                  probed: set<string>, index: nat, r: string)
    requires Probing(p, base, ext, existing, probed, index, r) && r in existing
    ensures Probing(p, base, ext, existing, probed + {r}, index + 1, Candidate(base, ext, index))
    ensures |existing - (probed + {r})| < |existing - probed|
  {
    NotProbedYet(p, base, ext, index, r);
    assert existing - probed == (existing - (probed + {r})) + {r};
  }

  /** The probe for `index` has not been made before. */
  lemma {:induction false} NotProbedYet(p: string, base: string, ext: string, index: nat, r: string)
    requires |p| == |base| + |ext| && 2 <= index
    requires r == (if index == 2 then p else Candidate(base, ext, index - 1))
    ensures r !in Probes(p, base, ext, index)
  {
    if index > 2 {
      ProbesBefore(p, base, ext, index, index - 1);
    }
  }

  /** Every probe before the one for `index` differs from the candidate for k >= index - 1. */
  lemma {:induction false} ProbesBefore(p: string, base: string, ext: string, index: nat, k: nat)
    requires |p| == |base| + |ext| && 2 <= index && index - 1 <= k
    ensures Candidate(base, ext, k) !in Probes(p, base, ext, index)
    decreases index
  {
    if index > 3 {
      ProbesBefore(p, base, ext, index - 1, k);
      CandidatesDistinct(base, ext, index - 2, k);
    }
  }

  /** Every earlier probe found an existing path. */
  lemma {:induction false} ProbesExist(p: string, base: string, ext: string, existing: set<string>,
                                       index: nat, j: nat)
    requires Probes(p, base, ext, index) <= existing && 2 <= j < index - 1
    ensures Candidate(base, ext, j) in existing
    decreases index
  {
    if j < index - 2 {
      ProbesExist(p, base, ext, existing, index - 1, j);
    }
  }

  /** When the probe finds no existing path, r is the unique path. */
  lemma ProbingDone(p: string, base: string, ext: string, existing: set<string>,
                    probed: set<string>, index: nat, r: string)
    requires base == p[..|p| - |GetExtension(p)|] && ext == GetExtension(p)
    requires Probing(p, base, ext, existing, probed, index, r) && r !in existing
    ensures IsUniquePath(p, existing, r)
  {
    ProbesHoldPath(p, base, ext, index);
    if p in existing {
      forall j: nat | 2 <= j < index - 1 ensures Candidate(base, ext, j) in existing {
        ProbesExist(p, base, ext, existing, index, j);
      }
      assert r == Candidate(Stem(p), GetExtension(p), index - 1);
    }
  }

  /** From the second probe on, the path itself has been probed. */
  lemma {:induction false} ProbesHoldPath(p: string, base: string, ext: string, index: nat)
    ensures index > 2 ==> p in Probes(p, base, ext, index)
    decreases index
  {
    if index > 3 {
      ProbesHoldPath(p, base, ext, index - 1);
    }
  }

  /** The result is determined by the path and the set of existing paths. */
  lemma UniquePathDeterministic(p: string, existing: set<string>, r1: string, r2: string)
    requires IsUniquePath(p, existing, r1) && IsUniquePath(p, existing, r2)
    ensures r1 == r2
  {
    if p in existing {
      var base, ext := Stem(p), GetExtension(p);
      var k1: nat :| 2 <= k1 && r1 == Candidate(base, ext, k1)
        && forall j: nat :: 2 <= j < k1 ==> Candidate(base, ext, j) in existing;
      var k2: nat :| 2 <= k2 && r2 == Candidate(base, ext, k2)
        && forall j: nat :: 2 <= j < k2 ==> Candidate(base, ext, j) in existing;
      assert !(k1 < k2) && !(k2 < k1);
    }
  }

  /** The least free candidate is the unique path. */
  lemma FirstFreeCandidate(p: string, existing: set<string>, k: nat)
    requires p in existing && 2 <= k
    requires forall j: nat :: 2 <= j < k ==> Candidate(Stem(p), GetExtension(p), j) in existing
    requires Candidate(Stem(p), GetExtension(p), k) !in existing
    ensures IsUniquePath(p, existing, Candidate(Stem(p), GetExtension(p), k))
  {
  }

  /** With `file.txt` and `file (2).txt` taken, the result is `file (3).txt`. */
  lemma ThirdNameExample(r: string)
    requires IsUniquePath("file.txt", {"file.txt", "file (2).txt"}, r)
    ensures r == "file (3).txt"
  {
    var p, existing := "file.txt", {"file.txt", "file (2).txt"};
    FileTxtCandidates();
    forall j: nat | 2 <= j < 3 ensures Candidate("file", ".txt", j) in existing {
      assert j == 2;
    }
    FirstFreeCandidate(p, existing, 3);
    UniquePathDeterministic(p, existing, r, "file (3).txt");
  }

  lemma FileTxtCandidates()
    ensures Stem("file.txt") == "file" && GetExtension("file.txt") == ".txt"
    ensures Candidate("file", ".txt", 2) == "file (2).txt"
    ensures Candidate("file", ".txt", 3) == "file (3).txt"
  {
    FileTxtParts();
    SingleDigitCandidate("file", ".txt", 2);
    SingleDigitCandidate("file", ".txt", 3);
  }

  lemma FileTxtParts()
    ensures Stem("file.txt") == "file" && GetExtension("file.txt") == ".txt"
  {
    assert "file.txt" == "file" + ".txt";
    ExtensionOfSuffix("file", ".txt");
  }

  lemma SingleDigitCandidate(base: string, ext: string, k: nat)
    requires k < 10
    ensures Candidate(base, ext, k) == base + " (" + [DigitChar(k)] + ")" + ext
  {
  }
}
