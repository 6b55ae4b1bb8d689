/**
 * The domain extractor of aggregation/utils/extract-domain.ts: the lower-case
 * domain of an address, or the reason there is none.
 */
module DomainExtraction {
  import opened Wrappers
  import opened Text
  import DomainValidation

  /** The three errors the extractor throws. */
  datatype ExtractError = MissingAt | EmptyDomain | InvalidDomainFormat

  /** `[a-z]{2,}` under the `i` flag: two or more ASCII letters. */
  predicate IsLetterGroup(part: string) {
    |part| >= 2 && forall i | 0 <= i < |part| :: IsAsciiLetter(part[i])
  }

  /**
   * `/^[a-z0-9]([a-z0-9-]{0,61}[a-z0-9])?(\.[a-z]{2,})+$/i`: a first label of
   * the DNS shape, then one or more dot-separated groups of letters.
   */
  predicate MatchesDomainPattern(domain: string) {
    var parts := Split(domain, '.');
    && |parts| >= 2
    && DomainValidation.MatchesLabelPattern(parts[0])
    && forall i | 1 <= i < |parts| :: IsLetterGroup(parts[i])
  }

  /** `s.slice(0, -1)` */
  function DropLast(s: string): string {
    if s == [] then [] else s[..|s| - 1]
  }

  /**
   * The extractor: normalise, cut after the first `@`, check the shape, and
   * strip a trailing dot.
   */
  function ExtractDomain(email: string): (r: Result<string, ExtractError>)
    ensures var n := Normalize(email);
      && (r == Err(MissingAt) <==> '@' !in n)
      && (r == Err(EmptyDomain) <==> n != [] && n[|n| - 1] == '@' && '@' !in n[..|n| - 1])
      && (r.Ok? ==> |r.value| < |n| && n[|n| - |r.value| - 1] == '@' && n[|n| - |r.value|..] == r.value)
      && (r.Ok? ==> '@' !in r.value && '.' in r.value && MatchesDomainPattern(r.value))
    ensures var n := Normalize(email); var a := IndexOf(n, '@', 0);
      && (a >= 0 && n[a + 1..] != [] ==> (r.Ok? <==> MatchesDomainPattern(n[a + 1..])))
      && (r.Ok? ==> a >= 0 && r.value == n[a + 1..])
  {
    var normalized := Normalize(email);
    var atIndex := IndexOf(normalized, '@', 0);
    if atIndex == -1 then Err(MissingAt)
    else
      var domain := normalized[atIndex + 1..];
      if domain == [] then Err(EmptyDomain)
      else if !MatchesDomainPattern(domain) then
        DomainWithoutAt(domain);
        Err(InvalidDomainFormat)
      else
        DomainWithoutAt(domain);
        TrailingDotStripIsDead(domain);
        Ok(if EndsWith(domain, ".") then DropLast(domain) else domain)
  }

  /** A string of the domain shape contains a dot and no `@`. */
  lemma DomainWithoutAt(domain: string)
    ensures MatchesDomainPattern(domain) ==> '@' !in domain && '.' in domain
  {
    if MatchesDomainPattern(domain) {
      var parts := Split(domain, '.');
      JoinSplit(domain, '.');
      forall i | 0 <= i < |domain| ensures domain[i] != '@' {
        var c := domain[i];
        JoinChars(parts, ".", c);
        if c != '.' {
          var j :| 0 <= j < |parts| && c in parts[j];
          var k :| 0 <= k < |parts[j]| && parts[j][k] == c;
          assert j == 0 || IsLetterGroup(parts[j]);
        }
      }
      assert domain[|parts[0]|] == '.';
    }
  }

  /** The strip at the end never fires: the pattern already rules out a trailing dot. */
  lemma TrailingDotStripIsDead(domain: string)
    requires MatchesDomainPattern(domain)
    ensures !EndsWith(domain, ".")
  {
    var parts := Split(domain, '.');
    assert domain != [] by { assert parts != [[]]; }
    SplitLast(domain, '.');
    assert |parts[|parts| - 1]| >= 2;
    assert domain[|domain| - 1..] == [domain[|domain| - 1]];
  }

  /** The extracted domain is lower case: it is cut from the normalised address. */
  lemma ExtractedIsLowerCase(email: string)
    requires ExtractDomain(email).Ok?
    ensures Lower(ExtractDomain(email).value) == ExtractDomain(email).value
  {
    var n := Normalize(email);
    var d := ExtractDomain(email).value;
    NormalizeIsCanonical(email);
    LowerSlice(n, |n| - |d|);
  }

  /**
   * An extracted domain also passes the domain validator once it is short
   * enough and its labels and TLD are acceptable there: the extractor's
   * pattern is the validator's label rule with the later labels narrowed to
   * letters.
   */
  lemma ExtractedDomainValidates(email: string, tldSet: set<string>)
    requires ExtractDomain(email).Ok?
    requires var d := ExtractDomain(email).value; var parts := Split(d, '.');
      && |d| <= DomainValidation.MaxDomainLength
      && (forall i | 0 <= i < |parts| :: |parts[i]| <= DomainValidation.MaxLabelLength)
      && Lower(parts[|parts| - 1]) in tldSet
    ensures DomainValidation.IsValidDomain(ExtractDomain(email).value, tldSet)
  {
    var parts := Split(ExtractDomain(email).value, '.');
    forall i | 0 <= i < |parts| ensures DomainValidation.MatchesLabelPattern(parts[i]) {
      if i > 0 {
        assert IsLetterGroup(parts[i]);
      }
    }
  }

  /** The extractor admits a 64-letter final group that the domain validator's 63-character label limit rejects. */
  lemma LongGroupExtractedButInvalid(tldSet: set<string>)
    ensures var d := "a." + seq(64, i => 'x');
      && MatchesDomainPattern(d)
      && !DomainValidation.IsValidDomain(d, tldSet)
  {
    var group := seq(64, i => 'x');
    var d := "a." + group;
    SplitAtSeparator("a", group, '.');
    assert '.' !in group;
    SplitWithoutSeparator(group, '.');
    assert Split(d, '.') == ["a", group];
  }
}
