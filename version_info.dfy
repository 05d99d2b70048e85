/**
 * `VersionInfo`: an immutable major.minor version, recognised in a string by the
 * unanchored pattern /v(\d+)\.(\d+)/ and rendered back as "v<major>.<minor>".
 */
module VersionInfo {
  import opened Wrappers
  import opened Numerals

  datatype Version = Version(major: nat, minor: nat)

  // ---------------------------------------------------------------------------
  // The pattern /v(\d+)\.(\d+)/ as a relation: s[i..l] is 'v', digits s[i+1..j],
  // '.' at j, digits s[j+1..l].
  // ---------------------------------------------------------------------------

  ghost predicate PatternAt(s: string, i: int, j: int, l: int) {
    && 0 <= i && i + 1 < j && j + 1 < l <= |s|
    && s[i] == 'v'
    && AllDigitsIn(s[i + 1..j], 10)
    && s[j] == '.'
    && AllDigitsIn(s[j + 1..l], 10)
  }

  /**
   * The match a JavaScript regular expression reports: the leftmost start, and the greedy
   * `\d+` of the second group runs as far as the digits go.
   */
  ghost predicate LeftmostMatch(s: string, i: int, j: int, l: int) {
    && PatternAt(s, i, j, l)
    && (l == |s| || !IsDigitIn(s[l], 10))
    && forall i', j', l' :: i' < i ==> !PatternAt(s, i', j', l')
  }

  // ---------------------------------------------------------------------------
  // The matcher: try each start position from the left.
  // ---------------------------------------------------------------------------

  /** The two groups of a match starting at position `i`, if there is one. */
  function MatchAt(s: string, i: nat): Option<(string, string)> {
    if i < |s| && s[i] == 'v' then
      var major := LeadingDigits(s[i + 1..], 10);
      var j := i + 1 + |major|;
      if major != [] && j < |s| && s[j] == '.' then
        var minor := LeadingDigits(s[j + 1..], 10);
        if minor != [] then Some((major, minor)) else None
      else None
    else None
  }

  /** The groups of the leftmost match starting at `from` or later. */
  function FirstMatch(s: string, from: nat): Option<(string, string)>
    decreases |s| - from
  {
    if from >= |s| then None
    else
      match MatchAt(s, from)
      case Some(groups) => Some(groups)
      case None => FirstMatch(s, from + 1)
  }

  lemma MatchAtGroupsAreDigits(s: string)
    requires FirstMatch(s, 0).Some?
    ensures AllDigitsIn(FirstMatch(s, 0).value.0, 10) && AllDigitsIn(FirstMatch(s, 0).value.1, 10)
  {
    var i := FirstMatchSome(s, 0);
  }

  lemma MatchAtSound(s: string, i: nat)
    requires MatchAt(s, i).Some?
    ensures var (a, b) := MatchAt(s, i).value;
            var j := i + 1 + |a|;
            var l := j + 1 + |b|;
            && PatternAt(s, i, j, l)
            && (l == |s| || !IsDigitIn(s[l], 10))
            && a == s[i + 1..j] && b == s[j + 1..l]
  {
    var (a, b) := MatchAt(s, i).value;
    var j := i + 1 + |a|;
    assert a == s[i + 1..][..|a|] == s[i + 1..j];
    assert b == s[j + 1..][..|b|] == s[j + 1..j + 1 + |b|];
  }

  lemma MatchAtComplete(s: string, i: nat, j: int, l: int)
    requires PatternAt(s, i, j, l)
    ensures MatchAt(s, i).Some?
  {
    assert s[i + 1..] == s[i + 1..j] + s[j..];
    LeadingDigitsOfRun(s[i + 1..j], s[j..], 10);
  }

  lemma {:induction false} FirstMatchNone(s: string, from: nat)
    ensures FirstMatch(s, from).None? <==> forall i, j, l :: from <= i ==> !PatternAt(s, i, j, l)
    decreases |s| - from
  {
    if from >= |s| {
    } else if MatchAt(s, from).Some? {
      MatchAtSound(s, from);
    } else {
      FirstMatchNone(s, from + 1);
      forall j, l ensures !PatternAt(s, from, j, l) {
        if PatternAt(s, from, j, l) {
          MatchAtComplete(s, from, j, l);
        }
      }
    }
  }

  lemma {:induction false} FirstMatchSome(s: string, from: nat) returns (i: nat)
    requires FirstMatch(s, from).Some?
    ensures from <= i && MatchAt(s, i) == FirstMatch(s, from)
    ensures forall i': nat :: from <= i' < i ==> MatchAt(s, i').None?
    decreases |s| - from
  {
    if MatchAt(s, from).None? {
      i := FirstMatchSome(s, from + 1);
    } else {
      i := from;
    }
  }

  // ---------------------------------------------------------------------------
  // VersionInfo's members.
  // ---------------------------------------------------------------------------

  /** `VersionInfo.tryParse`: the version in the leftmost match, or None when nothing matches. */
  function TryParse(versionString: string): (r: Option<Version>)
    ensures r.None? <==> forall i, j, l :: !PatternAt(versionString, i, j, l)
    ensures r.Some? ==>
      exists i, j, l :: LeftmostMatch(versionString, i, j, l) &&
        r.value == Version(DigitsValue(versionString[i + 1..j], 10), DigitsValue(versionString[j + 1..l], 10))
  {
    FirstMatchNone(versionString, 0);
    match FirstMatch(versionString, 0)
    case None => None
    case Some((major, minor)) =>
      MatchAtGroupsAreDigits(versionString);
      LeftmostGroups(versionString);
      Some(Version(DigitsValue(major, 10), DigitsValue(minor, 10)))
  }

  /** The groups FirstMatch reports are those of the leftmost, greedy match. */
  lemma LeftmostGroups(s: string)
    requires FirstMatch(s, 0).Some?
    ensures exists i, j, l :: LeftmostMatch(s, i, j, l) &&
              FirstMatch(s, 0).value.0 == s[i + 1..j] && FirstMatch(s, 0).value.1 == s[j + 1..l]
  {
    var i := FirstMatchSome(s, 0);
    MatchAtSound(s, i);
    var a := MatchAt(s, i).value.0;
    var b := MatchAt(s, i).value.1;
    var j := i + 1 + |a|;
    var l := j + 1 + |b|;
    forall i', j', l' | i' < i ensures !PatternAt(s, i', j', l') {
      if PatternAt(s, i', j', l') {
        MatchAtComplete(s, i', j', l');
      }
    }
    assert LeftmostMatch(s, i, j, l);
  }

  /** `VersionInfo.parse`: TryParse, or the format error when the pattern does not occur. */
  function Parse(versionString: string): (r: Result<Version, string>)
    ensures r.Success? <==> TryParse(versionString).Some?
    ensures r.Success? ==> r.value == TryParse(versionString).value
    ensures r.Failure? ==> r.error == "Version is not in a correct format: '" + versionString + "'"
  {
    match TryParse(versionString)
    case Some(v) => Success(v)
    case None => Failure("Version is not in a correct format: '" + versionString + "'")
  }

  /** `VersionInfo.toString`: "v<major>.<minor>" in decimal. */
  function ToString(v: Version): (s: string)
    ensures |s| >= 4 && s[0] == 'v'
  {
    "v" + NatToDigits(v.major, 10) + "." + NatToDigits(v.minor, 10)
  }

  /** `decrementMinor`: a new version one minor step lower; fails at minor 0. */
  function DecrementMinor(v: Version): (r: Result<Version, string>)
    ensures r.Failure? <==> v.minor == 0
    ensures r.Failure? ==> r.error == "Cannot decrement the minor version below zero"
    ensures r.Success? ==> r.value.major == v.major && r.value.minor + 1 == v.minor
  {
    if v.minor == 0 then Failure("Cannot decrement the minor version below zero")
    else Success(Version(v.major, v.minor - 1))
  }

  /** The leftmost match in a rendered version is the whole string, with the rendered digits as its groups. */
  lemma ToStringMatches(v: Version)
    ensures FirstMatch(ToString(v), 0) == Some((NatToDigits(v.major, 10), NatToDigits(v.minor, 10)))
  {
    var a, b := NatToDigits(v.major, 10), NatToDigits(v.minor, 10);
    var t := ToString(v);
    assert t[1..] == a + ("." + b);
    LeadingDigitsOfRun(a, "." + b, 10);
    var j := 1 + |a|;
    assert t[j] == '.';
    assert t[j + 1..] == b + [];
    LeadingDigitsOfRun(b, [], 10);
    assert MatchAt(t, 0) == Some((a, b));
  }

  /** Rendering a version and recognising it again gives the same major and minor. */
  lemma TryParseToString(v: Version)
    ensures TryParse(ToString(v)) == Some(v)
  {
    ToStringMatches(v);
  }

  /** Decrementing then rendering still parses back to the decremented version. */
  lemma DecrementMinorRoundTrip(v: Version)
    requires v.minor > 0
    ensures DecrementMinor(v).Success?
    ensures Parse(ToString(DecrementMinor(v).value)) == Success(Version(v.major, v.minor - 1))
  {
    TryParseToString(Version(v.major, v.minor - 1));
  }
}
