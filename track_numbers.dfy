/** `GetCDATrackNumber`: the unanchored `cdaTrackNumberRegex`
    `[a-zA-Z]:\Track([0-9]+)\.cda` followed by `int.Parse` of its first group. */
module TrackNumbers {
  import opened Wrappers
  import opened Chars
  import opened Decimal

  /** The two exceptions `int.Parse` raises on a run of decimal digits. */
  datatype ParseError = FormatError | OverflowError

  /** `int.MaxValue`, the largest value an `int` (32-bit) holds. */
  const IntMax: nat := 0x7FFF_FFFF

  /** The pattern matches at index i with a group of k digits. */
  predicate TrackMatchAt(p: string, i: nat, k: nat) {
    i + 12 + k <= |p| && IsAsciiLetter(p[i]) && p[i + 1..i + 8] == ":\\Track"
    && 0 < k && AllDigits(p[i + 8..i + 8 + k]) && p[i + 8 + k..i + 12 + k] == ".cda"
  }

  /** Length of the leading run of decimal digits: what the greedy `[0-9]+` takes. */
  function DigitRun(s: string): (n: nat)
    ensures n <= |s|
    ensures forall j :: 0 <= j < n ==> IsAsciiDigit(s[j])
    ensures n < |s| ==> !IsAsciiDigit(s[n])
  {
    if s == [] || !IsAsciiDigit(s[0]) then 0 else 1 + DigitRun(s[1..])
  }

  /** The digit count of a match at index i. The greedy group takes every digit;
      giving some back cannot help, since what follows them must be `.`. */
  function TrackDigitsAt(p: string, i: nat): Option<nat> {
    if i + 8 <= |p| && IsAsciiLetter(p[i]) && p[i + 1..i + 8] == ":\\Track" then
      var k := DigitRun(p[i + 8..]);
      if 0 < k && i + 12 + k <= |p| && p[i + 8 + k..i + 12 + k] == ".cda" then Some(k) else None
    else None
  }

  /** At each start index the pattern matches with at most one group length, the
      one TrackDigitsAt computes. */
  lemma TrackDigitsAtExact(p: string, i: nat)
    ensures forall k: nat :: TrackMatchAt(p, i, k) <==> TrackDigitsAt(p, i) == Some(k)
  {
    forall k: nat | TrackMatchAt(p, i, k) ensures TrackDigitsAt(p, i) == Some(k) {
      var s := p[i + 8..];
      forall j | 0 <= j < k ensures IsAsciiDigit(s[j]) {
        assert s[j] == p[i + 8..i + 8 + k][j];
      }
      assert s[k] == p[i + 8 + k..i + 12 + k][0];
      DigitRunIs(s, k);
    }
    if TrackDigitsAt(p, i).Some? {
      var k := TrackDigitsAt(p, i).value;
      var s := p[i + 8..];
      assert p[i + 8..i + 8 + k] == s[..k];
    }
  }

  lemma DigitRunIs(s: string, k: nat)
    requires k <= |s| && (forall j :: 0 <= j < k ==> IsAsciiDigit(s[j]))
    requires k < |s| ==> !IsAsciiDigit(s[k])
    ensures DigitRun(s) == k
  {
  }

  /** The group of a match at one start index is determined by the index. */
  lemma TrackDigitsUnique(p: string, i: nat, k1: nat, k2: nat)
    requires TrackMatchAt(p, i, k1) && TrackMatchAt(p, i, k2)
    ensures k1 == k2
  {
    TrackDigitsAtExact(p, i);
  }

  /** The leftmost match at or after `from`, as (index, group length). */
  function FindTrack(p: string, from: nat): (r: Option<(nat, nat)>)
    ensures r.Some? ==> from <= r.value.0 && TrackMatchAt(p, r.value.0, r.value.1)
    ensures r.Some? ==> forall j: nat, k: nat :: from <= j < r.value.0 ==> !TrackMatchAt(p, j, k)
    ensures r.None? ==> forall j: nat, k: nat :: from <= j ==> !TrackMatchAt(p, j, k)
    decreases |p| - from
  {
    TrackDigitsAtExact(p, from);
    if |p| <= from then None
    else match TrackDigitsAt(p, from)
      case Some(k) => Some((from, k))
      case None => FindTrack(p, from + 1)
  }

  /** `int.Parse` of the text of the group, which is empty when nothing matched:
      FormatException for the empty text, OverflowException for a value past
      int.MaxValue, and otherwise the value, which fits an `int`. */
  function ParseInt32(s: string): (r: Result<int, ParseError>)
    requires AllDigits(s)
    ensures r == Failure(FormatError) <==> s == ""
    ensures r == Failure(OverflowError) <==> s != "" && DecimalValue(s) > IntMax
    ensures r.Success? ==> r.value == DecimalValue(s) && 0 <= r.value <= IntMax
  {
    if s == "" then Failure(FormatError)
    else if DecimalValue(s) > IntMax then Failure(OverflowError)
    else Success(DecimalValue(s))
  }

  /** GetCDATrackNumber: the number in the first `X:\TrackN.cda` of the path; a
      path without one raises FormatException, a number past int.MaxValue
      raises OverflowException. */
  function GetCDATrackNumber(p: string): (r: Result<int, ParseError>)
    ensures r == Failure(FormatError) <==> forall i: nat, k: nat :: !TrackMatchAt(p, i, k)
    ensures r != Failure(FormatError) ==>
      exists i: nat, k: nat :: TrackMatchAt(p, i, k)
        && (forall j: nat, m: nat :: j < i ==> !TrackMatchAt(p, j, m))
        && r == (if DecimalValue(p[i + 8..i + 8 + k]) <= IntMax
                 then Success(DecimalValue(p[i + 8..i + 8 + k]))
                 else Failure(OverflowError))
  {
    match FindTrack(p, 0)
    case None => Failure(FormatError)
    case Some((i, k)) => ParseInt32(p[i + 8..i + 8 + k])
  }

  /** A successful result is a valid non-negative `int`. */
  lemma TrackNumberInRange(p: string)
    ensures GetCDATrackNumber(p).Success? ==> 0 <= GetCDATrackNumber(p).value <= IntMax
  {
  }

  /** A CD track file name, `X:\TrackD.cda`, reads as `int.Parse` of its digits D. */
  lemma TrackFileName(letter: char, d: string)
    requires IsAsciiLetter(letter) && 0 < |d| && AllDigits(d)
    ensures GetCDATrackNumber([letter] + ":\\Track" + d + ".cda") == ParseInt32(d)
  {
    var p := [letter] + ":\\Track" + d + ".cda";
    var k := |d|;
    assert p[1..8] == ":\\Track";
    assert p[8..8 + k] == d;
    assert p[8 + k..12 + k] == ".cda";
    assert TrackMatchAt(p, 0, k);
    TrackDigitsAtExact(p, 0);
  }

  /** The track file named with n's shortest decimal text reads back as n, unless
      n is past int.MaxValue. */
  lemma TrackFileRoundTrip(letter: char, n: nat)
    requires IsAsciiLetter(letter)
    ensures GetCDATrackNumber([letter] + ":\\Track" + FormatNat(n) + ".cda")
      == if n <= IntMax then Success(n) else Failure(OverflowError)
  {
    TrackFileName(letter, FormatNat(n));
    ParseFormatRoundTrip(n);
  }

  /** Leading zeros of the track number are read as decimal, not octal. */
  lemma LeadingZeroTrack()
    ensures GetCDATrackNumber("D:\\Track07.cda") == Success(7)
  {
    assert "D:\\Track07.cda" == ['D'] + ":\\Track" + "07" + ".cda";
    TrackFileName('D', "07");
    assert DecimalValue("07") == 7;
  }

  /** A path that is not a CD track raises FormatException. */
  lemma NoTrackRaisesFormatError()
    ensures GetCDATrackNumber("D:\\Song.mp3") == Failure(FormatError)
  {
    assert |"D:\\Song.mp3"| < 12;
  }
}
