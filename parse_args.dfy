/**
 * The copy of `VersionInfo` in the command-line argument helpers: the same pattern and
 * decimal conversion, with the format error raised directly by `parse`.
 */
module ParseArgs {
  import opened Wrappers
  import opened Numerals
  import VersionInfo

  /** `VersionInfo.parse` of the argument helpers: the groups of the leftmost match, read in base 10. */
  function Parse(versionString: string): (r: Result<VersionInfo.Version, string>)
    ensures r.Failure? <==> forall i, j, l :: !VersionInfo.PatternAt(versionString, i, j, l)
    ensures r.Failure? ==> r.error == "Version is not in a correct format: '" + versionString + "'"
  {
    VersionInfo.FirstMatchNone(versionString, 0);
    match VersionInfo.FirstMatch(versionString, 0)
    case None => Failure("Version is not in a correct format: '" + versionString + "'")
    case Some((major, minor)) =>
      VersionInfo.MatchAtGroupsAreDigits(versionString);
      Success(VersionInfo.Version(DigitsValue(major, 10), DigitsValue(minor, 10)))
  }

  /** Both copies of the class accept the same strings and yield the same major and minor. */
  lemma ParseAgreesWithVersionInfo(versionString: string)
    ensures Parse(versionString) == VersionInfo.Parse(versionString)
  {
  }

  /** Parsing the output of `toString` returns an equal version. */
  lemma ParseToString(v: VersionInfo.Version)
    ensures Parse(VersionInfo.ToString(v)) == Success(v)
  {
    VersionInfo.ToStringMatches(v);
  }
}
