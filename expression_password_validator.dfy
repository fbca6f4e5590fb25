/**
 * domain/expression/PasswordValidator: the rule-based validator behind the /validate endpoint.
 * A chain of guards, checked in order; the first that fails decides the answer.
 */
module ExpressionPasswordValidator {
  import opened Wrappers
  import opened PasswordModel
  import opened PasswordPattern
  import opened PasswordRules
  import opened HttpResponseUtils

  /** isValidPassword: the whole-string match of the complexity pattern. */
  function IsValidPassword(password: string): (b: bool)
    ensures b <==> MinLength <= |password| && MeetsCharacterRules(password)
  {
    PatternIffRules(password);
    MatchesPattern(password)
  }

  /** validate(String). The answer always carries the input password and is never ERROR (an
      exception would be rethrown, and none can arise from these guards). */
  function Validate(password: Option<string>): (r: PasswordResponse)
    ensures r.password == password
    ensures r.status != Error
  {
    if password.None? then
      CreatePasswordResponse(Some(PasswordIsRequired.Description()), password, Invalid)
    else if |password.value| < MinLength then
      CreatePasswordResponse(Some(AtLeast8Characters.Description()), password, Invalid)
    else if |password.value| > MaxLength then
      CreatePasswordResponse(Some(AtMost128Characters.Description()), password, Invalid)
    else if !IsValidPassword(password.value) then
      CreatePasswordResponse(Some(AtLeastRules.Description()), password, Invalid)
    else
      CreatePasswordResponse(Some(PasswordIsValid.Description()), password, Valid)
  }

  /** The guard chain reports the first rule of the checking order that the password breaks,
      and success when it breaks none. */
  lemma ValidateReportsFirstViolatedRule(password: Option<string>)
    ensures Validate(password) == Verdict(FirstViolated(CheckOrder, password), password)
  {
    var r0 := CheckOrder;
    var r1 := [AtLeast8Characters, AtMost128Characters, AtLeastRules];
    var r2 := [AtMost128Characters, AtLeastRules];
    var r3 := [AtLeastRules];
    assert r0[1..] == r1 && r1[1..] == r2 && r2[1..] == r3 && r3[1..] == [];
    FirstViolatedStep(r0, password);
    FirstViolatedStep(r1, password);
    FirstViolatedStep(r2, password);
    FirstViolatedStep(r3, password);
    var v := FirstViolated(r0, password);
    if password.None? {
      assert v == Some(PasswordIsRequired);
    } else if |password.value| < MinLength {
      assert v == Some(AtLeast8Characters);
    } else if |password.value| > MaxLength {
      assert v == Some(AtMost128Characters);
    } else if !MeetsCharacterRules(password.value) {
      assert v == Some(AtLeastRules);
    } else {
      assert v == None;
    }
  }

  /** One step of the first-failure search. */
  lemma FirstViolatedStep(rules: seq<PasswordRule>, password: Option<string>)
    requires rules != []
    ensures FirstViolated(rules, password)
         == if Satisfies(rules[0], password) then FirstViolated(rules[1..], password) else Some(rules[0])
  {
  }

  /** A password is accepted exactly when it is present, 8 to 128 chars long (both ends included)
      and meets the character rules; an accepted password gets "Password is valid". */
  lemma ValidIff(password: Option<string>)
    ensures Validate(password).status == Valid
        <==> password.Some? && MinLength <= |password.value| <= MaxLength && MeetsCharacterRules(password.value)
    ensures Validate(password).status == Valid ==> Validate(password).message == PasswordIsValid.Description()
  {
  }

  /** Whatever its content, a password shorter than 8 chars gets the length message, even when it
      also breaks the character rules (e.g. "", "   ", "Short1!"). */
  lemma ShortPasswordGetsLengthMessage(password: string)
    requires |password| < MinLength
    ensures Validate(Some(password)) == PasswordResponse(Invalid, AtLeast8Characters.Description(), Some(password))
  {
  }

  /** A password longer than 128 chars gets the maximum-length message. */
  lemma LongPasswordGetsLengthMessage(password: string)
    requires |password| > MaxLength
    ensures Validate(Some(password)) == PasswordResponse(Invalid, AtMost128Characters.Description(), Some(password))
  {
  }

  /** A password of acceptable length with a forbidden char (such as '#' or ' ') gets the
      character-rules message. */
  lemma ForbiddenCharIsRejected(password: string, i: nat)
    requires MinLength <= |password| <= MaxLength
    requires i < |password| && !InClass(password[i], Allowed)
    ensures Validate(Some(password)) == PasswordResponse(Invalid, AtLeastRules.Description(), Some(password))
  {
  }

  /** A password of acceptable length missing one of the four classes gets the character-rules
      message (e.g. "securepass123!" has no upper-case letter). */
  lemma MissingClassIsRejected(password: string, k: CharClass)
    requires MinLength <= |password| <= MaxLength
    requires k != Allowed && !Contains(password, k)
    ensures Validate(Some(password)) == PasswordResponse(Invalid, AtLeastRules.Description(), Some(password))
  {
  }

  /** "Abc123!@": exactly 8 chars, one of each class, accepted. */
  lemma ExactlyEightCharsAccepted()
    ensures Validate(Some("Abc123!@")) == PasswordResponse(Valid, PasswordIsValidText, Some("Abc123!@"))
  {
    var p := "Abc123!@";
    assert InClass(p[0], UpperCase) && InClass(p[1], LowerCase) && InClass(p[3], Digit) && InClass(p[6], Special);
    assert ConsistsOf(p, Allowed) by {
      forall i | 0 <= i < |p| ensures InClass(p[i], Allowed) {
        assert p[i] in "Abc123!@";
      }
    }
    assert IsValidPassword(p);
  }

  /** A null password is reported as required, with a null password in the answer. */
  lemma NullPasswordIsRequired()
    ensures Validate(None) == PasswordResponse(Invalid, PasswordIsRequiredText, None)
  {
  }
}
