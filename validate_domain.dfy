/**
 * `validateDomain` of utils/validate-domain.ts: is a string a registrable
 * host name whose top-level label is a known TLD?
 */
module DomainValidation {
  import opened Text

  const MaxDomainLength := 253
  const MaxLabelLength := 63

  /**
   * `/^[a-z0-9](?:[a-z0-9-]{0,61}[a-z0-9])?$/i`: 1 to 63 ASCII letters, digits
   * and hyphens, starting and ending with a letter or a digit, either case.
   */
  predicate MatchesLabelPattern(part: string) {
    && 1 <= |part| <= MaxLabelLength
    && IsAsciiAlnum(part[0])
    && IsAsciiAlnum(part[|part| - 1])
    && forall i | 0 < i < |part| - 1 :: IsAsciiAlnum(part[i]) || part[i] == '-'
  }

  /** `/[^a-z0-9.-]/i.test(domain)` is false. */
  predicate OnlyHostChars(s: string) {
    forall i | 0 <= i < |s| :: IsAsciiAlnum(s[i]) || s[i] == '.' || s[i] == '-'
  }

  /** `domain.includes('..')` */
  predicate HasDoubleDot(s: string) {
    exists i | 0 <= i < |s| - 1 :: s[i] == '.' && s[i + 1] == '.'
  }

  /**
   * What validateDomain accepts: at most 253 characters, at least two
   * dot-separated labels, each matching the label pattern, and a last label
   * whose lower-cased form is in `tldSet`.
   */
  predicate IsValidDomain(domain: string, tldSet: set<string>) {
    |domain| <= MaxDomainLength && ValidLabels(Split(domain, '.'), tldSet)
  }

  /** At least two labels, each matching the label pattern, the last a known TLD in either case. */
  predicate ValidLabels(labels: seq<string>, tldSet: set<string>) {
    && |labels| >= 2
    && Lower(labels[|labels| - 1]) in tldSet
    && forall i | 0 <= i < |labels| :: MatchesLabelPattern(labels[i])
  }

  /**
   * validateDomain: the short-circuiting chain of the source. The label loop
   * settles the answer; the final `..` and character-class tests never turn
   * a string the loop accepted into a rejection (LabelChecksSubsumeFinalChecks).
   */
  method ValidateDomain(domain: string, tldSet: set<string>) returns (valid: bool)
    ensures valid == IsValidDomain(domain, tldSet)
  {
    if |domain| == 0 || |domain| > MaxDomainLength {
      return false;
    }
    if StartsWith(domain, ".") || EndsWith(domain, ".") || Trim(domain) != domain {
      FramingRejects(domain, tldSet);
      return false;
    }
    var labels := Split(domain, '.');
    if |labels| < 2 {
      return false;
    }
    var tld := Lower(labels[|labels| - 1]);
    if tld !in tldSet {
      return false;
    }
    for i := 0 to |labels|
      invariant forall j | 0 <= j < i :: MatchesLabelPattern(labels[j])
    {
      if |labels[i]| > MaxLabelLength || !MatchesLabelPattern(labels[i]) {
        return false;
      }
    }
    LabelChecksSubsumeFinalChecks(domain);
    valid := !HasDoubleDot(domain) && OnlyHostChars(domain);
  }

  /** A leading or trailing dot, or surrounding whitespace, leaves a label that fails the pattern. */
  lemma FramingRejects(domain: string, tldSet: set<string>)
    requires domain != []
    requires StartsWith(domain, ".") || EndsWith(domain, ".") || Trim(domain) != domain
    ensures !IsValidDomain(domain, tldSet)
  {
    FramedEdge(domain);
    EdgeLabels(domain);
  }

  /** Each framing flaw puts a character other than a letter or a digit at one end. */
  lemma FramedEdge(domain: string)
    requires domain != []
    requires StartsWith(domain, ".") || EndsWith(domain, ".") || Trim(domain) != domain
    ensures !IsAsciiAlnum(domain[0]) || !IsAsciiAlnum(domain[|domain| - 1])
  {
    if StartsWith(domain, ".") {
      assert domain[..1][0] == domain[0];
    } else if EndsWith(domain, ".") {
      assert domain[|domain| - 1..][0] == domain[|domain| - 1];
    } else {
      TrimIdentity(domain);
    }
  }

  /** A first or last character other than a letter or a digit spoils the first or last label. */
  lemma EdgeLabels(domain: string)
    requires domain != []
    ensures var labels := Split(domain, '.');
      && (!IsAsciiAlnum(domain[0]) ==> !MatchesLabelPattern(labels[0]))
      && (!IsAsciiAlnum(domain[|domain| - 1]) ==> !MatchesLabelPattern(labels[|labels| - 1]))
  {
    SplitFirst(domain, '.');
    SplitLast(domain, '.');
  }

  /** Labels that all match the pattern rule out `..` and every character outside `[a-z0-9.-]`. */
  lemma LabelChecksSubsumeFinalChecks(domain: string)
    requires forall i | 0 <= i < |Split(domain, '.')| :: MatchesLabelPattern(Split(domain, '.')[i])
    ensures !HasDoubleDot(domain)
    ensures OnlyHostChars(domain)
  {
    var labels := Split(domain, '.');
    if HasDoubleDot(domain) {
      var k :| 0 <= k < |domain| - 1 && domain[k] == '.' && domain[k + 1] == '.';
      SplitAdjacentSeparators(domain, '.', k);
      assert false;
    }
    JoinSplit(domain, '.');
    forall i | 0 <= i < |domain|
      ensures IsAsciiAlnum(domain[i]) || domain[i] == '.' || domain[i] == '-'
    {
      var c := domain[i];
      JoinChars(labels, ".", c);
      if c != '.' {
        var j :| 0 <= j < |labels| && c in labels[j];
        var k :| 0 <= k < |labels[j]| && labels[j][k] == c;
        assert MatchesLabelPattern(labels[j]);
      }
    }
  }

  /**
   * A valid domain passes every framing check of the source: 1 to 253
   * characters, no leading or trailing dot, no surrounding whitespace, no
   * `..`, only `[a-z0-9.-]` in either case.
   */
  lemma ValidDomainShape(domain: string, tldSet: set<string>)
    requires IsValidDomain(domain, tldSet)
    ensures 0 < |domain| <= MaxDomainLength
    ensures domain[0] != '.' && domain[|domain| - 1] != '.'
    ensures Trim(domain) == domain
    ensures !HasDoubleDot(domain) && OnlyHostChars(domain)
  {
    var labels := Split(domain, '.');
    assert labels != [[]];
    SplitFirst(domain, '.');
    SplitLast(domain, '.');
    assert MatchesLabelPattern(labels[0]);
    assert MatchesLabelPattern(labels[|labels| - 1]);
    LabelChecksSubsumeFinalChecks(domain);
    TrimUnframed(domain);
  }

  lemma MatchesLabelPatternLower(part: string)
    ensures MatchesLabelPattern(Lower(part)) == MatchesLabelPattern(part)
  {
    var lowered := Lower(part);
    assert forall i | 0 <= i < |part| :: lowered[i] == LowerChar(part[i]);
  }

  /** Lower-casing never changes the verdict: validity is case-insensitive. */
  lemma {:induction false} ValidDomainIgnoresCase(domain: string, tldSet: set<string>)
    ensures IsValidDomain(Lower(domain), tldSet) == IsValidDomain(domain, tldSet)
  {
    SplitLower(domain, '.');
    LabelsAgree(Split(domain, '.'), Split(Lower(domain), '.'), tldSet);
  }

  /** Lower-cased labels are valid exactly when the labels are. */
  lemma LabelsAgree(labels: seq<string>, lowered: seq<string>, tldSet: set<string>)
    requires lowered == MapSeq(labels, Lower)
    ensures ValidLabels(lowered, tldSet) == ValidLabels(labels, tldSet)
  {
    forall i | 0 <= i < |labels|
      ensures MatchesLabelPattern(lowered[i]) == MatchesLabelPattern(labels[i])
    {
      MatchesLabelPatternLower(labels[i]);
    }
    if |labels| > 0 {
      LowerIdempotent(labels[|labels| - 1]);
    }
  }

  /** A valid domain is still valid after the pipeline's trim and lower-casing. */
  lemma NormalizePreservesValidity(domain: string, tldSet: set<string>)
    requires IsValidDomain(domain, tldSet)
    ensures IsValidDomain(Normalize(domain), tldSet)
  {
    ValidDomainShape(domain, tldSet);
    ValidDomainIgnoresCase(domain, tldSet);
  }
}
