/**
 * The text the script prints: the header, one line per repository
 * (`f"{repo['name']} - Created on {repo['created_at']}"`), and the failure
 * line that carries the HTTP status code as Python's `str(int)` spells it.
 */
module Listing {
  import opened Repos

  datatype Option<T> = None | Some(value: T)

  const Header: string := "Repositories sorted by date created:"
  const Separator: string := " - Created on "
  const FailurePrefix: string := "Failed to fetch repositories: "

  /** The line printed for one repository. */
  function RepoLine(r: Repo): (line: string)
    ensures |line| == |r.name| + |Separator| + |r.createdAt|
    ensures line[..|r.name|] == r.name
    ensures line[|r.name|..|r.name| + |Separator|] == Separator
    ensures line[|r.name| + |Separator|..] == r.createdAt
  {
    r.name + Separator + r.createdAt
  }

  /**
   * Reads a record line back, given the width of its timestamp (20 for the
   * `YYYY-MM-DDTHH:MM:SSZ` form): the timestamp is the tail, the separator
   * sits just before it, and the name is everything in front.
   */
  function ParseLine(line: string, width: nat): (r: Option<Repo>)
    ensures r.Some? ==> |r.value.createdAt| == width
  {
    if |line| < width + |Separator| then None
    else
      var cut := |line| - width - |Separator|;
      if line[cut..cut + |Separator|] == Separator
      then Some(Repo(line[..cut], line[cut + |Separator|..]))
      else None
  }

  /** A record line carries its record's name and creation time recoverably. */
  lemma RepoLineRoundTrip(r: Repo)
    ensures ParseLine(RepoLine(r), |r.createdAt|) == Some(r)
  {
  }

  /** Two records of one timestamp width print the same line only if they are equal. */
  lemma RepoLineInjective(a: Repo, b: Repo)
    requires |a.createdAt| == |b.createdAt|
    requires RepoLine(a) == RepoLine(b)
    ensures a == b
  {
  }

  /** The character of one decimal digit. */
  function DigitChar(d: nat): (c: char)
    requires d < 10
    ensures '0' <= c <= '9'
    ensures c as int - '0' as int == d
  {
    ('0' as int + d) as char
  }

  /** Python's `str(n)` for a non-negative `n`: decimal, no leading zeros. */
  function NatToDecimal(n: nat): (s: string)
    ensures |s| > 0
    ensures forall i | 0 <= i < |s| :: '0' <= s[i] <= '9'
    ensures s[0] == '0' ==> n == 0
    decreases n
  {
    if n < 10 then [DigitChar(n)] else NatToDecimal(n / 10) + [DigitChar(n % 10)]
  }

  /** Python's `str(n)` for any integer. */
  function IntToDecimal(n: int): (s: string)
    ensures |s| > 0
    ensures (s[0] == '-') == (n < 0)
  {
    if n < 0 then "-" + NatToDecimal(-n) else NatToDecimal(n)
  }

  /** The value of a string of decimal digits. */
  function DecimalValue(s: string): int
  {
    if s == [] then 0
    else DecimalValue(s[..|s| - 1]) * 10 + (s[|s| - 1] as int - '0' as int)
  }

  /** The value of an optionally signed decimal numeral. */
  function SignedDecimalValue(s: string): int
  {
    if |s| > 0 && s[0] == '-' then -DecimalValue(s[1..]) else DecimalValue(s)
  }

  lemma {:induction false} NatToDecimalRoundTrip(n: nat)
    ensures DecimalValue(NatToDecimal(n)) == n
    decreases n
  {
    var s := NatToDecimal(n);
    if n < 10 {
      assert s[..0] == [];
    } else {
      NatToDecimalRoundTrip(n / 10);
      assert s[..|s| - 1] == NatToDecimal(n / 10);
    }
  }

  /** `str` on integers loses nothing: its output reads back as the same integer. */
  lemma IntToDecimalRoundTrip(n: int)
    ensures SignedDecimalValue(IntToDecimal(n)) == n
  {
    if n < 0 {
      NatToDecimalRoundTrip(-n);
      assert IntToDecimal(n)[1..] == NatToDecimal(-n);
    } else {
      NatToDecimalRoundTrip(n);
    }
  }

  /** The line printed when the listing request does not return 200. */
  function FailureLine(statusCode: int): (line: string)
    ensures |line| > |FailurePrefix|
    ensures line[..|FailurePrefix|] == FailurePrefix
    ensures line != Header
  {
    assert Header[0] == 'R';
    FailurePrefix + IntToDecimal(statusCode)
  }

  /** The failure line names the status code it was given. */
  lemma FailureLineCarriesStatus(statusCode: int)
    ensures SignedDecimalValue(FailureLine(statusCode)[|FailurePrefix|..]) == statusCode
  {
    assert FailureLine(statusCode)[|FailurePrefix|..] == IntToDecimal(statusCode);
    IntToDecimalRoundTrip(statusCode);
  }

  /** The header followed by `for repo in sorted_repos: print(...)`, collected as lines. */
  method ListRepositories(sorted: seq<Repo>) returns (lines: seq<string>)
    ensures |lines| == |sorted| + 1
    ensures lines[0] == Header
    ensures forall i | 0 <= i < |sorted| :: lines[i + 1] == RepoLine(sorted[i])
  {
    lines := [Header];
    for i := 0 to |sorted|
      invariant |lines| == i + 1
      invariant lines[0] == Header
      invariant forall k | 0 <= k < i :: lines[k + 1] == RepoLine(sorted[k])
    {
      lines := lines + [RepoLine(sorted[i])];
    }
  }
}
