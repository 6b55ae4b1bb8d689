/**
 * The minimal validator, the default export of src/validation.ts: only the
 * length of the address and the position of its one `@` are checked.
 */
module StructuralValidation {
  import opened Text
  import EmailValidation

  const MinLength := 3
  const MaxLength := 254
  const MaxLocalLength := 64
  const MaxDomainLength := 253

  /** The addresses the minimal validator accepts. */
  predicate IsWellFormed(email: string) {
    && MinLength <= |email| <= MaxLength
    && exists a | 0 <= a < |email| ::
         && EmailValidation.SoleAt(email, a)
         && 1 <= a <= MaxLocalLength
         && 1 <= |email| - a - 1 <= MaxDomainLength
  }

  /** The validator as the source writes it: a chain of early returns over `indexOf`. */
  function ValidateStructure(email: string): (r: bool)
    ensures r == IsWellFormed(email)
  {
    var len := |email|;
    if email == [] || len > MaxLength || len < MinLength then false
    else
      var atIndex := IndexOf(email, '@', 0);
      if atIndex == -1 then false
      else if IndexOf(email, '@', atIndex + 1) != -1 then
        assert forall a | 0 <= a < |email| :: !EmailValidation.SoleAt(email, a);
        false
      else
        assert EmailValidation.SoleAt(email, atIndex);
        assert forall a | 0 <= a < |email| && a != atIndex :: !EmailValidation.SoleAt(email, a);
        if atIndex == 0 || atIndex > MaxLocalLength then false
        else if atIndex == len - 1 || len - atIndex - 1 > MaxDomainLength then false
        else true
  }

  /** Every address the full validator accepts, under any flags, passes the minimal one. */
  lemma FullValidatorIsStricter(email: string, validateTld: bool, blockDisposables: bool,
                                tldSet: set<string>, domainSet: set<string>)
    requires EmailValidation.IsValidEmail(email, validateTld, blockDisposables, tldSet, domainSet)
    ensures IsWellFormed(email)
  {
    var a :| 0 <= a < |email| && EmailValidation.AcceptedAt(email, a, validateTld, blockDisposables, tldSet, domainSet);
    assert EmailValidation.SoleAt(email, a);
  }

  /** The minimal validator accepts short addresses the full one rejects: `a@b` is shorter than six characters and has no dot. */
  lemma MinimalIsWeaker(validateTld: bool, blockDisposables: bool,
                        tldSet: set<string>, domainSet: set<string>)
    ensures IsWellFormed("a@b")
    ensures !EmailValidation.IsValidEmail("a@b", validateTld, blockDisposables, tldSet, domainSet)
  {
    assert EmailValidation.SoleAt("a@b", 1);
  }
}
