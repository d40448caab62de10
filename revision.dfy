/**
 * Revision arguments: the `HEAD~N` form and its number (Java's
 * `Integer.parseInt` on ASCII digits), the `%d` formatting `branchRemove`
 * uses to build such an argument, and the pair of loop bounds (`flagHash`,
 * `flagInt`) that `log` and `deleteLastCommits` derive from a revision.
 */
module Revisions {
  import opened Types

  /** The prefix of a relative revision. */
  const HeadPrefix: string := "HEAD~"

  /** The default branch. */
  const Master: string := "master"

  /** Java's `Integer.MAX_VALUE` and the magnitude of `Integer.MIN_VALUE`. */
  const MaxInt: int := 0x7fff_ffff
  const MinIntMagnitude: int := 0x8000_0000

  predicate StartsWith(s: string, prefix: string)
  {
    |prefix| <= |s| && s[..|prefix|] == prefix
  }

  predicate IsDigit(c: char)
  {
    '0' <= c <= '9'
  }

  predicate AllDigits(s: string)
  {
    forall i :: 0 <= i < |s| ==> IsDigit(s[i])
  }

  /** The value of a string of decimal digits, most significant first. */
  function DigitsValue(s: string): nat
    requires AllDigits(s)
  {
    if s == [] then 0
    else DigitsValue(s[..|s| - 1]) * 10 + (s[|s| - 1] as int - '0' as int)
  }

  /** A non-empty digit string within `limit`, as a value. */
  function Magnitude(s: string, limit: int): Option<nat>
  {
    if |s| > 0 && AllDigits(s) && DigitsValue(s) <= limit then Some(DigitsValue(s)) else None
  }

  /**
   * `Integer.parseInt`: an optional sign, then at least one digit, the value
   * within the 32-bit range; anything else is a NumberFormatException (None).
   */
  function ParseInt(s: string): (r: Option<int>)
    ensures r.Some? ==> -MinIntMagnitude <= r.value <= MaxInt
  {
    if |s| == 0 then None
    else if s[0] == '-' then
      match Magnitude(s[1..], MinIntMagnitude)
      case Some(v) => Some(-(v as int))
      case None => None
    else if s[0] == '+' then
      Magnitude(s[1..], MaxInt)
    else
      Magnitude(s, MaxInt)
  }

  /** `String.format("%d", n)` for a non-negative `n`. */
  function FormatNat(n: nat): (s: string)
    ensures |s| > 0
  {
    if n < 10 then [('0' as int + n) as char]
    else FormatNat(n / 10) + [('0' as int + n % 10) as char]
  }

  /** Formatting a number and reading its digits back gives the number. */
  lemma {:induction false} FormatNatDigits(n: nat)
    ensures AllDigits(FormatNat(n))
    ensures DigitsValue(FormatNat(n)) == n
  {
    var s := FormatNat(n);
    if n >= 10 {
      FormatNatDigits(n / 10);
      assert s[..|s| - 1] == FormatNat(n / 10);
    }
  }

  /**
   * `Integer.parseInt(String.format("%d", n))` is `n` over the 32-bit range
   * and a NumberFormatException beyond it.
   */
  lemma ParseFormatRoundTrip(n: nat)
    ensures ParseInt(FormatNat(n)) == if n <= MaxInt then Some(n) else None
  {
    FormatNatDigits(n);
    var s := FormatNat(n);
    assert IsDigit(s[0]);
  }

  /** The number N of a `HEAD~N` argument, or the parse failure. */
  function RelativeSteps(revision: string): (r: Result<int>)
    requires StartsWith(revision, HeadPrefix)
    ensures r.Success? ==> -MinIntMagnitude <= r.value <= MaxInt
    ensures r.Failure? ==> r.error == NotANumber
  {
    match ParseInt(revision[|HeadPrefix|..])
    case Some(n) => Success(n)
    case None => Failure(NotANumber)
  }

  /**
   * The loop bounds of `log` and `deleteLastCommits`: walk until the commit
   * `stopAt` is reached or `steps` runs out. `HEAD~N` gives N steps and no
   * stop id; another name is a stop id with unbounded steps; null and
   * "master" give neither bound.
   */
  datatype Bound = Bound(stopAt: string, steps: int)

  function WalkBound(revision: Option<string>): (r: Result<Bound>)
    ensures r.Success? && r.value.stopAt != "" ==> r.value.steps == MaxInt
  {
    if revision.Some? && StartsWith(revision.value, HeadPrefix) then
      match RelativeSteps(revision.value)
      case Success(n) => Success(Bound("", n))
      case Failure(e) => Failure(e)
    else if revision.Some? && revision.value != Master then
      Success(Bound(revision.value, MaxInt))
    else
      Success(Bound("", MaxInt))
  }

  /**
   * The argument `branchRemove` builds for N steps, `"HEAD~" + N`: it reads
   * back as exactly N steps, or as a parse failure when N is beyond the 32-bit
   * range.
   */
  function RelativeArgument(n: nat): (rev: string)
    ensures StartsWith(rev, HeadPrefix) && rev[|HeadPrefix|..] == FormatNat(n)
    ensures WalkBound(Some(rev)) == if n <= MaxInt then Success(Bound("", n)) else Failure(NotANumber)
  {
    var rev := HeadPrefix + FormatNat(n);
    assert rev[|HeadPrefix|..] == FormatNat(n);
    ParseFormatRoundTrip(n);
    rev
  }
}
