/**
 * The library's public validator, the default export of src/index.ts:
 * `isValidEmail(email, validateTld = true, blockDisposables = true)`.
 * The generated data modules are parameters: `tldSet` and `domainSet`.
 */
module EmailValidation {
  import opened Text

  const MinEmailLength := 6
  const MaxEmailLength := 254
  const MaxLocalLength := 64
  const MaxDomainPartLength := 253

  /** `a` is the position of the one and only `@` of `email`. */
  predicate SoleAt(email: string, a: int) {
    && 0 <= a < |email|
    && email[a] == '@'
    && forall i | 0 <= i < |email| && i != a :: email[i] != '@'
  }

  /**
   * The local-part rule at position `i`: a dot is not first, not last and
   * does not follow another dot. Nothing else is asked of a character.
   */
  predicate LocalCharOk(local: string, i: int)
    requires 0 <= i < |local|
  {
    local[i] == '.' ==> 0 < i < |local| - 1 && local[i - 1] != '.'
  }

  predicate LocalPartOk(local: string) {
    forall i | 0 <= i < |local| :: LocalCharOk(local, i)
  }

  predicate IsDomainPartChar(c: char) {
    IsAsciiAlnum(c) || c == '-' || c == '.'
  }

  /**
   * The domain-part rule at position `i`: an ASCII letter, digit, `-` or `.`,
   * and a dot is not first, not last and does not follow another dot.
   */
  predicate DomainCharOk(domain: string, i: int)
    requires 0 <= i < |domain|
  {
    && IsDomainPartChar(domain[i])
    && (domain[i] == '.' ==> 0 < i < |domain| - 1 && domain[i - 1] != '.')
  }

  predicate DomainPartOk(domain: string) {
    forall i | 0 <= i < |domain| :: DomainCharOk(domain, i)
  }

  /**
   * The TLD rule: the last dot of the whole address lies at least two
   * positions after `@` and is followed by at least two characters; with
   * `validateTld`, the lower-cased text after it is a known TLD.
   */
  predicate TldOk(email: string, a: int, validateTld: bool, tldSet: set<string>) {
    var d := LastIndexOf(email, '.');
    && d != -1
    && d >= a + 2
    && |email| - d >= 3
    && (validateTld ==> Lower(email[d + 1..]) in tldSet)
  }

  /** Everything the validator asks of an address whose only `@` is at `a`. */
  predicate AcceptedAt(email: string, a: int, validateTld: bool, blockDisposables: bool,
                       tldSet: set<string>, domainSet: set<string>)
  {
    && SoleAt(email, a)
    && 1 <= a <= MaxLocalLength
    && a < |email| - 1
    && |email| - a - 1 <= MaxDomainPartLength
    && (blockDisposables ==> Lower(email[a + 1..]) !in domainSet)
    && LocalPartOk(email[..a])
    && DomainPartOk(email[a + 1..])
    && TldOk(email, a, validateTld, tldSet)
  }

  /** The addresses the validator accepts. */
  predicate IsValidEmail(email: string, validateTld: bool, blockDisposables: bool,
                         tldSet: set<string>, domainSet: set<string>)
  {
    && MinEmailLength <= |email| <= MaxEmailLength
    && exists a | 0 <= a < |email| :: AcceptedAt(email, a, validateTld, blockDisposables, tldSet, domainSet)
  }

  /** JavaScript truthiness of a number: the bare literals at src/index.ts:88-89. */
  predicate Truthy(n: int) { n != 0 }

  /**
   * The validator: checks in the source's order, with its two character
   * loops. The local-part character test keeps the source's
   * `charCode === 33 || 35 || …`, which holds for every character.
   */
  method ValidateEmail(email: string, validateTld: bool, blockDisposables: bool,
                       tldSet: set<string>, domainSet: set<string>) returns (valid: bool)
    ensures valid == IsValidEmail(email, validateTld, blockDisposables, tldSet, domainSet)
  {
    var len := |email|;
    if email == [] || len > MaxEmailLength || len < MinEmailLength {
      return false;
    }

    var atIndex := IndexOf(email, '@', 0);
    if atIndex == -1 || IndexOf(email, '@', atIndex + 1) != -1 || atIndex == 0
      || atIndex > MaxLocalLength || atIndex == len - 1 || len - atIndex - 1 > MaxDomainPartLength
    {
      OnlyCandidateIsFirstAt(email, validateTld, blockDisposables, tldSet, domainSet);
      return false;
    }
    assert SoleAt(email, atIndex);
    OnlyCandidateIsFirstAt(email, validateTld, blockDisposables, tldSet, domainSet);

    if blockDisposables {
      var domain := email[atIndex + 1..len];
      assert domain == email[atIndex + 1..];
      if Lower(domain) in domainSet {
        return false;
      }
    }

    var localOk := CheckLocalPart(email, atIndex);
    if !localOk {
      return false;
    }
    var domainOk := CheckDomainPart(email, atIndex);
    if !domainOk {
      return false;
    }

    var lastDotIndex := LastIndexOf(email, '.');
    if lastDotIndex == -1 || lastDotIndex < atIndex + 2 || len - lastDotIndex < 3 {
      return false;
    }

    if validateTld {
      var tld := email[lastDotIndex + 1..];
      if Lower(tld) !in tldSet {
        return false;
      }
    }
    return true;
  }

  /**
   * The loop over the local part (src/index.ts:79-100). Its character test
   * keeps the source's `charCode === 33 || 35 || …`, which holds for every
   * character, so only the dot rule can reject.
   */
  method CheckLocalPart(email: string, atIndex: int) returns (ok: bool)
    requires 0 <= atIndex <= |email|
    ensures ok == LocalPartOk(email[..atIndex])
  {
    ghost var local := email[..atIndex];
    var prevWasDot := false;
    for i := 0 to atIndex
      invariant prevWasDot == (0 < i && email[i - 1] == '.')
      invariant forall j | 0 <= j < i :: LocalCharOk(local, j)
    {
      var c := email[i];
      var isValidChar := IsAsciiDigit(c) || ('A' <= c <= 'Z') || ('a' <= c <= 'z')
        || (c as int == 33 || Truthy(35));
      if !isValidChar {
        return false;
      }
      if c == '.' {
        if i == 0 || i == atIndex - 1 || prevWasDot {
          assert !LocalCharOk(local, i);
          return false;
        }
        prevWasDot := true;
      } else {
        prevWasDot := false;
      }
    }
    return true;
  }

  /** The loop over the domain part (src/index.ts:109-126). */
  method CheckDomainPart(email: string, atIndex: int) returns (ok: bool)
    requires 0 <= atIndex < |email|
    ensures ok == DomainPartOk(email[atIndex + 1..])
  {
    ghost var domainPart := email[atIndex + 1..];
    for i := atIndex + 1 to |email|
      invariant forall j | 0 <= j < i - (atIndex + 1) :: DomainCharOk(domainPart, j)
    {
      var c := email[i];
      assert c == domainPart[i - (atIndex + 1)];
      var isValidChar := IsAsciiDigit(c) || ('A' <= c <= 'Z') || ('a' <= c <= 'z')
        || (c == '-' || c == '.');
      if !isValidChar {
        assert !DomainCharOk(domainPart, i - (atIndex + 1));
        return false;
      }
      if c == '.' {
        if i == atIndex + 1 || i == |email| - 1 || email[i - 1] == '.' {
          assert !DomainCharOk(domainPart, i - (atIndex + 1));
          return false;
        }
      }
    }
    return true;
  }

  /**
   * Only the first `@` can be the one an address is accepted at, and it is
   * accepted there exactly when no second `@` follows it.
   */
  lemma OnlyCandidateIsFirstAt(email: string, validateTld: bool, blockDisposables: bool,
                               tldSet: set<string>, domainSet: set<string>)
    requires MinEmailLength <= |email| <= MaxEmailLength
    ensures var a := IndexOf(email, '@', 0);
      IsValidEmail(email, validateTld, blockDisposables, tldSet, domainSet)
      <==> a != -1 && AcceptedAt(email, a, validateTld, blockDisposables, tldSet, domainSet)
  {
    var a := IndexOf(email, '@', 0);
    if IsValidEmail(email, validateTld, blockDisposables, tldSet, domainSet) {
      var b :| 0 <= b < |email| && AcceptedAt(email, b, validateTld, blockDisposables, tldSet, domainSet);
      assert a == b;
    }
  }

  /** Once the sole `@` is known, acceptance is decided at that position alone. */
  lemma AcceptedOnlyAtSoleAt(email: string, a: int, validateTld: bool, blockDisposables: bool,
                             tldSet: set<string>, domainSet: set<string>)
    requires SoleAt(email, a)
    ensures IsValidEmail(email, validateTld, blockDisposables, tldSet, domainSet)
      <==> MinEmailLength <= |email| <= MaxEmailLength
           && AcceptedAt(email, a, validateTld, blockDisposables, tldSet, domainSet)
  {
    assert forall b | 0 <= b < |email| && b != a :: !SoleAt(email, b);
  }

  /**
   * Turning a flag off can only turn a rejection into an acceptance: every
   * address accepted with the checks on is accepted with them off.
   */
  lemma FlagsOnlyRestrict(email: string, validateTld: bool, blockDisposables: bool,
                          tldSet: set<string>, domainSet: set<string>)
    requires IsValidEmail(email, true, true, tldSet, domainSet)
    ensures IsValidEmail(email, validateTld, blockDisposables, tldSet, domainSet)
  {
    var a :| 0 <= a < |email| && AcceptedAt(email, a, true, true, tldSet, domainSet);
    assert AcceptedAt(email, a, validateTld, blockDisposables, tldSet, domainSet);
  }

  /**
   * With `validateTld` false the TLD set is never consulted, and with
   * `blockDisposables` false the disposable set is never consulted.
   */
  lemma UnusedSetsDoNotMatter(email: string, validateTld: bool, blockDisposables: bool,
                              tldSet: set<string>, domainSet: set<string>,
                              otherTlds: set<string>, otherDomains: set<string>)
    ensures !validateTld ==>
      IsValidEmail(email, validateTld, blockDisposables, tldSet, domainSet)
      == IsValidEmail(email, validateTld, blockDisposables, otherTlds, domainSet)
    ensures !blockDisposables ==>
      IsValidEmail(email, validateTld, blockDisposables, tldSet, domainSet)
      == IsValidEmail(email, validateTld, blockDisposables, tldSet, otherDomains)
  {
    if !validateTld {
      assert forall a | 0 <= a < |email| ::
        AcceptedAt(email, a, validateTld, blockDisposables, tldSet, domainSet)
        == AcceptedAt(email, a, validateTld, blockDisposables, otherTlds, domainSet);
    }
    if !blockDisposables {
      assert forall a | 0 <= a < |email| ::
        AcceptedAt(email, a, validateTld, blockDisposables, tldSet, domainSet)
        == AcceptedAt(email, a, validateTld, blockDisposables, tldSet, otherDomains);
    }
  }

  /**
   * A disposable domain is rejected whenever `blockDisposables` is on,
   * whatever its case.
   */
  lemma DisposableRejected(email: string, a: int, validateTld: bool,
                           tldSet: set<string>, domainSet: set<string>)
    requires SoleAt(email, a)
    requires Lower(email[a + 1..]) in domainSet
    ensures !IsValidEmail(email, validateTld, true, tldSet, domainSet)
  {
    AcceptedOnlyAtSoleAt(email, a, validateTld, true, tldSet, domainSet);
  }

  /**
   * What an accepted address looks like: one `@` with 1 to 64 characters
   * before it, a domain part that contains a dot, and a TLD of at least two
   * letters, digits or hyphens. The 253-character domain bound never
   * decides anything: the 254-character overall bound already implies it.
   */
  lemma ValidEmailShape(email: string, validateTld: bool, blockDisposables: bool,
                        tldSet: set<string>, domainSet: set<string>, a: int)
    requires MinEmailLength <= |email| <= MaxEmailLength
    requires SoleAt(email, a) && 1 <= a
    ensures |email| - a - 1 <= MaxDomainPartLength
    ensures IsValidEmail(email, validateTld, blockDisposables, tldSet, domainSet) ==>
      var d := LastIndexOf(email, '.');
      && a <= MaxLocalLength
      && a + 2 <= d <= |email| - 3
      && (forall i | d < i < |email| :: IsAsciiAlnum(email[i]) || email[i] == '-')
  {
    AcceptedOnlyAtSoleAt(email, a, validateTld, blockDisposables, tldSet, domainSet);
    if IsValidEmail(email, validateTld, blockDisposables, tldSet, domainSet) {
      var d := LastIndexOf(email, '.');
      var domain := email[a + 1..];
      forall i | d < i < |email| ensures IsAsciiAlnum(email[i]) || email[i] == '-' {
        assert email[i] == domain[i - a - 1];
        assert DomainCharOk(domain, i - a - 1);
      }
    }
  }

  // The examples of test/validator.test.ts, under the three flag
  // combinations (true, true), (false, true) and (true, false).

  lemma ExamplePlainAccepted(tldSet: set<string>, domainSet: set<string>)
    requires "com" in tldSet && "domain.com" !in domainSet
    ensures IsValidEmail("local" + "@" + "domain.com", true, true, tldSet, domainSet)
    ensures IsValidEmail("local" + "@" + "domain.com", false, true, tldSet, domainSet)
    ensures IsValidEmail("local" + "@" + "domain.com", true, false, tldSet, domainSet)
  {
    SimpleLocalFacts();
    LetterDomainFacts("domain.com", 6);
    ValidFromParts("local", "domain.com", true, true, tldSet, domainSet);
    ValidFromParts("local", "domain.com", false, true, tldSet, domainSet);
    ValidFromParts("local", "domain.com", true, false, tldSet, domainSet);
  }

  /** An address assembled around one `@` has it as its sole `@`. */
  lemma SoleAtOfParts(local: string, domain: string)
    requires '@' !in local && '@' !in domain
    ensures var e := local + "@" + domain;
      SoleAt(e, |local|) && e[..|local|] == local && e[|local| + 1..] == domain
  {
    var e := local + "@" + domain;
    assert forall i | 0 <= i < |local| :: e[i] == local[i];
    assert forall i | |local| < i < |e| :: e[i] == domain[i - |local| - 1];
    assert e[..|local|] == local;
    assert e[|local| + 1..] == domain;
  }

  /**
   * The TLD rule reads the last dot of the whole address; once the domain
   * part after `a` contains a dot, that is the domain part's last dot.
   */
  lemma LastDotInDomainPart(email: string, a: int)
    requires 0 <= a < |email|
    requires LastIndexOf(email[a + 1..], '.') != -1
    ensures var d := LastIndexOf(email[a + 1..], '.');
      && LastIndexOf(email, '.') == a + 1 + d
      && email[a + 1 + d + 1..] == email[a + 1..][d + 1..]
  {
    var domain := email[a + 1..];
    var d := LastIndexOf(domain, '.');
    var dot := a + 1 + d;
    assert forall i | dot <= i < |email| :: email[i] == domain[i - a - 1];
    LastIndexOfUnique(email, '.', dot);
    SliceOfSlice(email, a + 1, d + 1);
  }

  lemma SliceOfSlice(s: string, j: nat, k: nat)
    requires j + k <= |s|
    ensures s[j + k..] == s[j..][k..]
  {
  }

  /** The validator's rules stated on the two halves of `local@domain`. */
  predicate PartsAccepted(local: string, domain: string, validateTld: bool, blockDisposables: bool,
                          tldSet: set<string>, domainSet: set<string>)
  {
    && MinEmailLength <= |local| + 1 + |domain| <= MaxEmailLength
    && 1 <= |local| <= MaxLocalLength
    && 1 <= |domain| <= MaxDomainPartLength
    && (blockDisposables ==> Lower(domain) !in domainSet)
    && LocalPartOk(local)
    && DomainPartOk(domain)
    && var d := LastIndexOf(domain, '.');
       && d >= 1 && |domain| - d >= 3
       && (validateTld ==> Lower(domain[d + 1..]) in tldSet)
  }

  /** The validator's verdict on `local@domain`, from its two halves. */
  lemma ValidFromParts(local: string, domain: string, validateTld: bool, blockDisposables: bool,
                       tldSet: set<string>, domainSet: set<string>)
    requires '@' !in local && '@' !in domain
    ensures IsValidEmail(local + "@" + domain, validateTld, blockDisposables, tldSet, domainSet)
      <==> PartsAccepted(local, domain, validateTld, blockDisposables, tldSet, domainSet)
  {
    SoleAtOfParts(local, domain);
    ValidAtSoleAt(local + "@" + domain, |local|, validateTld, blockDisposables, tldSet, domainSet);
  }

  /** An address with a sole `@` is accepted exactly when its two halves are. */
  lemma ValidAtSoleAt(email: string, a: int, validateTld: bool, blockDisposables: bool,
                      tldSet: set<string>, domainSet: set<string>)
    requires SoleAt(email, a)
    ensures IsValidEmail(email, validateTld, blockDisposables, tldSet, domainSet)
      <==> PartsAccepted(email[..a], email[a + 1..], validateTld, blockDisposables, tldSet, domainSet)
  {
    AcceptedOnlyAtSoleAt(email, a, validateTld, blockDisposables, tldSet, domainSet);
    TldOkAfter(email, a, validateTld, tldSet);
  }

  /** The TLD rule at position `a` reads the last dot of the text after `a`. */
  lemma TldOkAfter(email: string, a: int, validateTld: bool, tldSet: set<string>)
    requires 0 <= a < |email|
    ensures TldOk(email, a, validateTld, tldSet)
      <==> var domain := email[a + 1..];
           var d := LastIndexOf(domain, '.');
           && d >= 1 && |domain| - d >= 3
           && (validateTld ==> Lower(domain[d + 1..]) in tldSet)
  {
    var domain := email[a + 1..];
    var d := LastIndexOf(domain, '.');
    var de := LastIndexOf(email, '.');
    if d != -1 {
      LastDotInDomainPart(email, a);
    } else if de > a {
      assert email[de] == domain[de - a - 1];
    }
  }

  /** The unusual local part of test/validator.test.ts:35 is accepted: only its dots are checked. */
  lemma ExampleUnusualLocalPart(tldSet: set<string>, domainSet: set<string>)
    requires "com" in tldSet && "gmail.com" !in domainSet
    ensures IsValidEmail("much.”more\\ unusual”" + "@" + "gmail.com", true, true, tldSet, domainSet)
  {
    UnusualLocalFacts();
    LetterDomainFacts("gmail.com", 5);
    assert "gmail.com"[6..] == "com";
    ValidFromParts("much.”more\\ unusual”", "gmail.com", true, true, tldSet, domainSet);
  }

  /** An unknown TLD is rejected only while `validateTld` is on (test/validator.test.ts:6). */
  lemma ExampleUnknownTld(tldSet: set<string>, domainSet: set<string>)
    requires "con" !in tldSet && "domain.con" !in domainSet
    ensures !IsValidEmail("local" + "@" + "domain.con", true, true, tldSet, domainSet)
    ensures IsValidEmail("local" + "@" + "domain.con", false, true, tldSet, domainSet)
  {
    SimpleLocalFacts();
    LetterDomainFacts("domain.con", 6);
    assert "domain.con"[7..] == "con";
    ValidFromParts("local", "domain.con", true, true, tldSet, domainSet);
    ValidFromParts("local", "domain.con", false, true, tldSet, domainSet);
  }

  /** A numeric final label passes every shape rule (test/validator.test.ts:25, TLD check off). */
  lemma ExampleNumericTldAccepted(tldSet: set<string>, domainSet: set<string>)
    requires "123.123.123.123" !in domainSet
    ensures IsValidEmail("email" + "@" + "123.123.123.123", false, true, tldSet, domainSet)
  {
    EmailLocalFacts();
    NumericDomainFacts();
    ValidFromParts("email", "123.123.123.123", false, true, tldSet, domainSet);
  }

  /** A numeric final label is no known TLD (test/validator.test.ts:25, TLD check on). */
  lemma ExampleNumericTldRejected(tldSet: set<string>, domainSet: set<string>)
    requires "123" !in tldSet
    ensures !IsValidEmail("email" + "@" + "123.123.123.123", true, true, tldSet, domainSet)
  {
    EmailLocalFacts();
    NumericDomainFacts();
    ValidFromParts("email", "123.123.123.123", true, true, tldSet, domainSet);
  }

  /** A leading dot or two dots in a row in the local part are rejected under every flag setting (test/validator.test.ts:11,14). */
  lemma ExampleLocalDotRules(validateTld: bool, blockDisposables: bool,
                             tldSet: set<string>, domainSet: set<string>)
    ensures !IsValidEmail(".local" + "@" + "domain.com", validateTld, blockDisposables, tldSet, domainSet)
    ensures !IsValidEmail("lo..cal" + "@" + "domain.com", validateTld, blockDisposables, tldSet, domainSet)
  {
    DottedLocalFacts();
    LetterDomainFacts("domain.com", 6);
    ValidFromParts(".local", "domain.com", validateTld, blockDisposables, tldSet, domainSet);
    ValidFromParts("lo..cal", "domain.com", validateTld, blockDisposables, tldSet, domainSet);
  }

  /** Two dots in a row in the domain part, or a one-letter TLD, are rejected under every flag setting (test/validator.test.ts:16,17). */
  lemma ExampleDomainDotRules(validateTld: bool, blockDisposables: bool,
                              tldSet: set<string>, domainSet: set<string>)
    ensures !IsValidEmail("local" + "@" + "domain..com", validateTld, blockDisposables, tldSet, domainSet)
    ensures !IsValidEmail("local" + "@" + "domain.c", validateTld, blockDisposables, tldSet, domainSet)
  {
    SimpleLocalFacts();
    DottedDomainFacts();
    ValidFromParts("local", "domain..com", validateTld, blockDisposables, tldSet, domainSet);
    ValidFromParts("local", "domain.c", validateTld, blockDisposables, tldSet, domainSet);
  }

  // What the validator's rules say of the halves of the examples above.

  lemma SimpleLocalFacts()
    ensures '@' !in "local" && LocalPartOk("local")
  {
  }

  lemma EmailLocalFacts()
    ensures '@' !in "email" && LocalPartOk("email")
  {
  }

  lemma UnusualLocalFacts()
    ensures '@' !in "much.”more\\ unusual”" && LocalPartOk("much.”more\\ unusual”")
  {
  }

  lemma DottedLocalFacts()
    ensures '@' !in ".local" && !LocalCharOk(".local", 0)
    ensures '@' !in "lo..cal" && !LocalCharOk("lo..cal", 3)
  {
  }

  /** A lower-case name, one dot, and a lower-case TLD of at least two letters. */
  lemma LetterDomainFacts(domain: string, dot: nat)
    requires 1 <= dot && dot + 3 <= |domain| && domain[dot] == '.'
    requires forall i | 0 <= i < |domain| && i != dot :: 'a' <= domain[i] <= 'z'
    ensures '@' !in domain && DomainPartOk(domain)
    ensures LastIndexOf(domain, '.') == dot
    ensures Lower(domain) == domain && Lower(domain[dot + 1..]) == domain[dot + 1..]
  {
    forall i | 0 <= i < |domain| ensures DomainCharOk(domain, i) {
      if i == dot {
        assert domain[i - 1] != '.' && i < |domain| - 1;
      }
    }
    LastIndexOfUnique(domain, '.', dot);
    LowerUnchanged(domain);
    LowerUnchanged(domain[dot + 1..]);
  }

  lemma NumericDomainFacts()
    ensures '@' !in "123.123.123.123" && DomainPartOk("123.123.123.123")
    ensures LastIndexOf("123.123.123.123", '.') == 11 && "123.123.123.123"[12..] == "123"
    ensures Lower("123.123.123.123") == "123.123.123.123" && Lower("123") == "123"
  {
    LastIndexOfUnique("123.123.123.123", '.', 11);
    LowerUnchanged("123");
    LowerUnchanged("123.123.123.123");
  }

  lemma DottedDomainFacts()
    ensures '@' !in "domain..com" && !DomainCharOk("domain..com", 7)
    ensures '@' !in "domain.c" && LastIndexOf("domain.c", '.') == 6
  {
    LastIndexOfUnique("domain.c", '.', 6);
  }
}
