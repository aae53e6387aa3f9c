/** The identifier classifier of the backend: `/^\d+$/.test(s)`. Without the
    `u` flag `\d` is exactly the ASCII digits, and without the `m` flag `$`
    matches only at the end of the input. */
module BackendStrings {

  predicate IsAsciiDigit(c: char) {
    '0' <= c <= '9'
  }

  /** `\d*` matched against all of `s`. */
  function MatchesDigitStar(s: string): (r: bool)
    ensures r <==> forall i :: 0 <= i < |s| ==> IsAsciiDigit(s[i])
  {
    s == [] || (IsAsciiDigit(s[0]) && MatchesDigitStar(s[1..]))
  }

  /** `doesStringOnlyContainNumbers`: `^\d+$`, one digit and then `\d*`. True
      exactly for the non-empty strings of ASCII digits. */
  function DoesStringOnlyContainNumbers(s: string): (r: bool)
    ensures r <==> |s| > 0 && forall i :: 0 <= i < |s| ==> IsAsciiDigit(s[i])
  {
    |s| > 0 && IsAsciiDigit(s[0]) && MatchesDigitStar(s[1..])
  }

  /** The empty string is not an identifier. */
  lemma EmptyIsNotNumeric()
    ensures !DoesStringOnlyContainNumbers("")
  {
  }

  /** One character outside 0-9 anywhere makes the string an alias. */
  lemma NonDigitMakesAlias(s: string, i: nat)
    requires i < |s| && !IsAsciiDigit(s[i])
    ensures !DoesStringOnlyContainNumbers(s)
  {
  }

  /** Two identifiers written one after the other form an identifier. */
  lemma ConcatenationIsNumeric(s: string, t: string)
    requires DoesStringOnlyContainNumbers(s) && DoesStringOnlyContainNumbers(t)
    ensures DoesStringOnlyContainNumbers(s + t)
  {
    assert forall i :: |s| <= i < |s + t| ==> (s + t)[i] == t[i - |s|];
  }
}
